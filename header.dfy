/**
 * kafcars/src/protocol/messages/header.rs: the request header every request
 * is sent behind, and the response header every response arrives behind.
 *
 * Each struct is given as the declaration the derive macro receives, the
 * schema it derives is computed, and the generated code is run through the
 * interpreter of module Versioned on the struct's values.
 *
 * The `ApiKey` codec and `serialize_nullable_string` are not part of this
 * model; they are parameters of the request header's schema, and so is the
 * codec of `String`, which the hook always takes the place of.
 */
module Header {
  import opened Errors
  import opened Wire
  import opened Serializer
  import opened Deserializer
  import opened Common
  import opened Messages
  import opened Versioned
  import opened FieldCodecs

  type Int32 = x: int | -0x8000_0000 <= x < 0x8000_0000

  // ---------------------------------------------------------------------------
  // RequestHeader: `#[kafka(max_version = 2)]`.

  const RequestHeaderInput: DeriveInput :=
    DeriveInput("RequestHeader", Struct(NamedFields([
      Field(Some("request_api_version"), Some(NoFieldOptions), Named("ApiVersion")),
      Field(Some("request_api_key"), Some(NoFieldOptions), Named("ApiKey")),
      Field(Some("correlation_id"), Some(NoFieldOptions), Named("i32")),
      Field(Some("client_id"),
            Some(NoFieldOptions.(minVersion := Some(1), serializeWith := Some("serialize_nullable_string"))),
            Named("String"))])))

  const RequestHeaderDef: SchemaDef :=
    SchemaDef(2, [
      FieldDef(Always, false, None, Named("ApiVersion")),
      FieldDef(Always, false, None, Named("ApiKey")),
      FieldDef(Always, false, None, Named("i32")),
      FieldDef(AtLeast(1), false, Some("serialize_nullable_string"), Named("String"))])

  /** The derive accepts the declaration: three unconditional fields, then `client_id` from version 1 on through its hook. */
  lemma RequestHeaderDerived()
    ensures DeriveSchemaDef(VersionedOptions(2, None), RequestHeaderInput) == Ok(RequestHeaderDef)
  {
    var named := RequestHeaderInput.data.fields.named;
    var defs := FieldDefs(named).value;
    assert FieldDefOf(named[3]).value == RequestHeaderDef.fields[3];
    assert defs == RequestHeaderDef.fields;
  }

  datatype RequestHeader = RequestHeader(requestApiVersion: ApiVersion, requestApiKey: ApiKey, correlationId: Int32, clientId: seq<byte>)

  /** The generated serializer, given the codecs this model does not hold. */
  function RequestHeaderSchema(apiKey: Encoder<Value>, nullableString: Hook<Value>, stringEncoder: Encoder<Value>): (s: SerializeSchema<Value>)
    ensures Realises(RequestHeaderDef, s)
  {
    SerializeSchema(2, [
      SerializeField(Always, false, None, IntEncoder(I16)),
      SerializeField(Always, false, None, apiKey),
      SerializeField(Always, false, None, IntEncoder(I32)),
      SerializeField(AtLeast(1), false, Some(nullableString), stringEncoder)])
  }

  /** The header as the sequence of its field values, in declaration order; none is an `Option`, so all are present. */
  function RequestHeaderValues(h: RequestHeader): (values: seq<Option<Value>>)
    ensures |values| == 4 && forall i :: 0 <= i < 4 ==> values[i].Some?
  {
    [Some(Int(h.requestApiVersion)), Some(Key(h.requestApiKey)), Some(Int(h.correlationId)), Some(Str(h.clientId))]
  }

  lemma Concat4(a: seq<byte>, b: seq<byte>, c: seq<byte>, d: seq<byte>)
    ensures Concat([a, b, c, d]) == a + b + c + d
  {
    var parts := [a, b, c, d];
    assert parts[1..] == [b, c, d] && [b, c, d][1..] == [c, d] && [c, d][1..] == [d] && [d][1..] == [];
    assert Concat([d]) == d;
    assert Concat([c, d]) == c + d;
    assert Concat([b, c, d]) == b + (c + d);
  }

  /**
   * The wire layout: above version 2 nothing is written; otherwise the API
   * version as two big-endian bytes, the API key, the correlation id as four
   * big-endian bytes, and the client id only from version 1 on.
   */
  lemma RequestHeaderLayout(
    apiKey: Encoder<Value>, nullableString: Hook<Value>, stringEncoder: Encoder<Value>,
    h: RequestHeader, version: ApiVersion, keyBytes: seq<byte>, clientIdBytes: seq<byte>)
    requires apiKey(Key(h.requestApiKey), version) == Emitted(keyBytes, None)
    requires version >= 1 ==> nullableString(Str(h.clientId)) == Emitted(clientIdBytes, None)
    ensures Encode(RequestHeaderSchema(apiKey, nullableString, stringEncoder), RequestHeaderValues(h), version)
         == if version > 2 then Err(UnsupportedVersion(2, version))
            else Ok(EncodeInt(I16, h.requestApiVersion) + keyBytes + EncodeInt(I32, h.correlationId)
                    + if version >= 1 then clientIdBytes else [])
  {
    var s := RequestHeaderSchema(apiKey, nullableString, stringEncoder);
    var values := RequestHeaderValues(h);
    if version <= 2 {
      var parts := [EncodeInt(I16, h.requestApiVersion), keyBytes, EncodeInt(I32, h.correlationId),
                    if version >= 1 then clientIdBytes else []];
      RequestHeaderFields(s, apiKey, nullableString, stringEncoder, h, version, parts);
      EmitFromConcatenates(s.fields, values, version, 0, parts);
      Concat4(parts[0], parts[1], parts[2], parts[3]);
    }
  }

  lemma RequestHeaderFields(
    s: SerializeSchema<Value>, apiKey: Encoder<Value>, nullableString: Hook<Value>, stringEncoder: Encoder<Value>,
    h: RequestHeader, version: ApiVersion, parts: seq<seq<byte>>)
    requires s == RequestHeaderSchema(apiKey, nullableString, stringEncoder)
    requires |parts| == 4 && parts[0] == EncodeInt(I16, h.requestApiVersion) && parts[2] == EncodeInt(I32, h.correlationId)
    requires apiKey(Key(h.requestApiKey), version) == Emitted(parts[1], None)
    requires version >= 1 ==> nullableString(Str(h.clientId)) == Emitted(parts[3], None)
    requires version < 1 ==> parts[3] == []
    ensures forall j :: 0 <= j < 4 ==> EmitField(s.fields[j], RequestHeaderValues(h)[j], version) == Emitted(parts[j], None)
  {
    var values := RequestHeaderValues(h);
    assert EmitField(s.fields[0], values[0], version) == Emitted(parts[0], None);
    assert EmitField(s.fields[1], values[1], version) == Emitted(parts[1], None);
    assert EmitField(s.fields[2], values[2], version) == Emitted(parts[2], None);
    assert EmitField(s.fields[3], values[3], version) == Emitted(parts[3], None);
  }

  /**
   * An API key the codec refuses ends serialization with its error, after
   * the API version and whatever the key's codec wrote before failing have
   * already gone to the writer.
   */
  lemma RequestHeaderKeyFailure(
    apiKey: Encoder<Value>, nullableString: Hook<Value>, stringEncoder: Encoder<Value>,
    h: RequestHeader, version: ApiVersion, partial: seq<byte>, e: SerializationError)
    requires version <= 2 && apiKey(Key(h.requestApiKey), version) == Emitted(partial, Some(e))
    ensures Emit(RequestHeaderSchema(apiKey, nullableString, stringEncoder), RequestHeaderValues(h), version)
         == Emitted(EncodeInt(I16, h.requestApiVersion) + partial, Some(e))
  {
    var s := RequestHeaderSchema(apiKey, nullableString, stringEncoder);
    var values := RequestHeaderValues(h);
    var parts := [EncodeInt(I16, h.requestApiVersion)];
    assert EmitField(s.fields[0], values[0], version) == Emitted(parts[0], None);
    assert EmitField(s.fields[1], values[1], version) == Emitted(partial, Some(e));
    EmitFromStopsAtFailure(s.fields, values, version, 0, 1, parts, partial, e);
    assert Concat(parts) == parts[0] + Concat([]);
  }

  /**
   * Versions 1 and 2 are the same layout: when the API key is written the
   * same way at both, the two headers are byte for byte the same.
   */
  lemma RequestHeaderVersionsOneAndTwoAgree(
    apiKey: Encoder<Value>, nullableString: Hook<Value>, stringEncoder: Encoder<Value>, h: RequestHeader)
    requires apiKey(Key(h.requestApiKey), 1) == apiKey(Key(h.requestApiKey), 2)
    ensures Emit(RequestHeaderSchema(apiKey, nullableString, stringEncoder), RequestHeaderValues(h), 1)
         == Emit(RequestHeaderSchema(apiKey, nullableString, stringEncoder), RequestHeaderValues(h), 2)
  {
    var s := RequestHeaderSchema(apiKey, nullableString, stringEncoder);
    var values := RequestHeaderValues(h);
    forall i | 0 <= i < 4
      ensures EmitField(s.fields[i], values[i], 1) == EmitField(s.fields[i], values[i], 2)
    {
    }
    assert EmitFrom(s.fields, values, 1, 3) == EmitFrom(s.fields, values, 2, 3);
    assert EmitFrom(s.fields, values, 1, 2) == EmitFrom(s.fields, values, 2, 2);
    assert EmitFrom(s.fields, values, 1, 1) == EmitFrom(s.fields, values, 2, 1);
  }

  // ---------------------------------------------------------------------------
  // ResponseHeader: `#[kafka(max_version = 1)]`.

  const ResponseHeaderInput: DeriveInput :=
    DeriveInput("ResponseHeader", Struct(NamedFields([
      Field(Some("correlation_id"), Some(NoFieldOptions), Named("i32")),
      Field(Some("tagged_fields"), Some(NoFieldOptions.(minVersion := Some(1))), OptionOf(Named("TaggedFields")))])))

  const ResponseHeaderDef: SchemaDef :=
    SchemaDef(1, [
      FieldDef(Always, false, None, Named("i32")),
      FieldDef(AtLeast(1), true, None, Named("TaggedFields"))])

  /** The derive accepts the declaration: the correlation id always, the tagged fields, an `Option`, from version 1 on. */
  lemma ResponseHeaderDerived()
    ensures DeriveSchemaDef(VersionedOptions(1, None), ResponseHeaderInput) == Ok(ResponseHeaderDef)
  {
    var named := ResponseHeaderInput.data.fields.named;
    OptionTypeAccepts([], Named("TaggedFields"));
    assert named[1].ty == PathType(false, [] + [OptionSegment(Named("TaggedFields"))]);
    assert FieldDefs(named).value == ResponseHeaderDef.fields;
  }

  /** The generated deserializer. */
  function ResponseHeaderSchema(): (d: DeserializeSchema<Value>)
    ensures RealisesDecoder(ResponseHeaderDef, d)
  {
    DeserializeSchema(1, [
      DeserializeField(Always, IntDecoder(I32)),
      DeserializeField(AtLeast(1), TaggedDecoder)])
  }

  datatype ResponseHeader = ResponseHeader(correlationId: Int32, taggedFields: Option<TaggedFields>)

  /** The header as the sequence of its field values. */
  function ResponseHeaderValues(h: ResponseHeader): seq<Option<Value>> {
    [Some(Int(h.correlationId)), if h.taggedFields.Some? then Some(Tagged(h.taggedFields.value)) else None]
  }

  /**
   * The response header read by hand, as the protocol lays it out: a
   * big-endian i32, then from version 1 on a tagged-field container; versions
   * above 1 are refused before anything is read.
   */
  function ReadResponseHeader(data: seq<byte>, version: ApiVersion): (r: Decoded<ResponseHeader>)
    ensures r.Ok? ==> (r.value.0.taggedFields.Some? <==> version >= 1)
  {
    if version > 1 then Err(UnsupportedVersion(1, version))
    else
      var c :- DecodeInt(I32, data);
      if version >= 1 then
        var t :- DecodeTaggedFields(c.1);
        Ok((ResponseHeader(c.0, Some(t.0)), t.1))
      else Ok((ResponseHeader(c.0, None), c.1))
  }

  /** The generated deserializer reads exactly what the hand-written reading does, and fails where it fails. */
  lemma ResponseHeaderDecode(data: seq<byte>, version: ApiVersion)
    ensures Decode(ResponseHeaderSchema(), data, version)
         == match ReadResponseHeader(data, version)
            case Ok(d) => Ok((ResponseHeaderValues(d.0), d.1))
            case Err(e) => Err(e)
  {
    var d := ResponseHeaderSchema();
    if version <= 1 && |data| >= 4 {
      var c := DecodeInt(I32, data).value;
      var y: Option<Value> := Some(Int(c.0));
      assert DecodeField(d.fields[0], data, version) == Ok((y, c.1));
      TaggedFieldStage(c.1, version);
      var t := DecodeTaggedFields(c.1);
      if version >= 1 && t.Ok? {
        var x: Option<Value> := Some(Tagged(t.value.0));
        assert [y] + [x] == [y, x];
        assert DecodeFrom(d.fields, data, version, 0) == Ok(([y, x], t.value.1));
      } else if version < 1 {
        var z: Option<Value> := None;
        assert [y] + [z] == [y, z];
        assert DecodeFrom(d.fields, data, version, 0) == Ok(([y, z], c.1));
      }
    }
  }

  /** The second field of the response header, on the bytes after the correlation id. */
  lemma TaggedFieldStage(rest: seq<byte>, version: ApiVersion)
    requires version <= 1
    ensures DecodeFrom(ResponseHeaderSchema().fields, rest, version, 1)
         == if version < 1 then Ok(([None], rest))
            else match DecodeTaggedFields(rest)
                 case Ok(t) => Ok(([Some(Tagged(t.0))], t.1))
                 case Err(e) => Err(e)
  {
    var d := ResponseHeaderSchema();
    var t := DecodeTaggedFields(rest);
    if version >= 1 {
      if t.Ok? {
        var x: Option<Value> := Some(Tagged(t.value.0));
        assert DecodeField(d.fields[1], rest, version) == Ok((x, t.value.1));
        assert DecodeFrom(d.fields, t.value.1, version, 2) == Ok(([], t.value.1));
        assert [x] + [] == [x];
      } else {
        assert DecodeField(d.fields[1], rest, version) == Err(t.error);
      }
    } else {
      var z: Option<Value> := None;
      assert DecodeField(d.fields[1], rest, version) == Ok((z, rest));
      assert DecodeFrom(d.fields, rest, version, 2) == Ok(([], rest));
      assert [z] + [] == [z];
    }
  }

  /** `ResponseHeader::deserialize_versioned(data, version)`: the generated code, then the struct built from its locals. */
  method DeserializeResponseHeader(r: Reader, version: ApiVersion) returns (res: Result<ResponseHeader, SerializationError>)
    modifies r
    ensures Follows(res, r.remaining, ReadResponseHeader(old(r.remaining), version))
  {
    ResponseHeaderDecode(r.remaining, version);
    var values :- DeserializeVersioned(ResponseHeaderSchema(), r, version);
    var tagged := if values[1].Some? then Some(values[1].value.fields) else None;
    res := Ok(ResponseHeader(values[0].value.x, tagged));
  }

  /** Version 0: four bytes of correlation id and nothing else; the tagged fields are None. */
  lemma ResponseHeaderVersion0(c: Int32, rest: seq<byte>)
    ensures ReadResponseHeader(EncodeInt(I32, c) + rest, 0) == Ok((ResponseHeader(c, None), rest))
  {
    DecodeIntRoundTrip(I32, c, rest);
  }

  /** Version 1: the correlation id, then the container; an empty one is the single byte 0. */
  lemma ResponseHeaderVersion1(c: Int32, rest: seq<byte>)
    ensures ReadResponseHeader(EncodeInt(I32, c) + [0] + rest, 1) == Ok((ResponseHeader(c, Some(map[])), rest))
  {
    DecodeIntRoundTrip(I32, c, [0] + rest);
    assert EncodeInt(I32, c) + [0] + rest == EncodeInt(I32, c) + ([0] + rest);
    DecodeZeroCount(rest);
  }

  /** Fewer than four bytes never make a header, at either version. */
  lemma ResponseHeaderTooShort(data: seq<byte>, version: ApiVersion)
    requires |data| < 4 && version <= 1
    ensures ReadResponseHeader(data, version) == Err(Io(UnexpectedEof))
  {
  }
}
