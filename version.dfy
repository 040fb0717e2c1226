/**
 * kafcars/src/protocol/messages/version.rs: `ApiVersionsRequest`, the first
 * request a client sends, derived with `#[derive(KafkaRequest)]` for versions
 * 0 to 4. All three fields exist from version 3 on; the two strings are
 * written as compact strings through their hook.
 *
 * The iteration order of the tagged-field map and the codec of `String`
 * (which the hook always takes the place of) are parameters.
 */
module VersionMessage {
  import opened Errors
  import opened Wire
  import opened Serializer
  import opened Common
  import opened Messages
  import opened Versioned
  import opened KafkaRequestDerive
  import opened FieldCodecs

  /** `#[kafka(response = "ApiVersionsResponse", api_key = "ApiKey::ApiVersions", max_version = "4")]` */
  const ApiVersionsRequestOptions: RequestOptions :=
    RequestOptions(None, 4, None, Some(ApiVersions), Some(Named("ApiVersionsResponse")))

  const CompactFromVersion3: FieldOptions :=
    NoFieldOptions.(minVersion := Some(3), serializeWith := Some("serialize_compact_string"))

  const ApiVersionsRequestInput: DeriveInput :=
    DeriveInput("ApiVersionsRequest", Struct(NamedFields([
      Field(Some("client_software_name"), Some(CompactFromVersion3), OptionOf(Named("String"))),
      Field(Some("client_software_version"), Some(CompactFromVersion3), OptionOf(Named("String"))),
      Field(Some("tagged_fields"), Some(NoFieldOptions.(minVersion := Some(3))), OptionOf(Named("TaggedFields")))])))

  const ApiVersionsRequestDef: SchemaDef :=
    SchemaDef(4, [
      FieldDef(AtLeast(3), true, Some("serialize_compact_string"), Named("String")),
      FieldDef(AtLeast(3), true, Some("serialize_compact_string"), Named("String")),
      FieldDef(AtLeast(3), true, None, Named("TaggedFields"))])

  /**
   * The derived constants: versions 0 to 4, key ApiVersions, and no
   * tagged-field threshold, since the tagged field is declared
   * `Option<TaggedFields>` and the search only recognises a type whose last
   * segment is `TaggedFields`.
   */
  lemma ApiVersionsRequestDerived()
    ensures DeriveKafkaRequest(ApiVersionsRequestOptions, ApiVersionsRequestInput)
         == Ok(DerivedRequest(ApiVersionsRequestDef,
                              RequestConstants(ApiVersions, ApiVersionRange(0, 4), None),
                              Named("ApiVersionsResponse")))
  {
    var named := ApiVersionsRequestInput.data.fields.named;
    OptionTypeAccepts([], Named("String"));
    OptionTypeAccepts([], Named("TaggedFields"));
    assert OptionOf(Named("String")) == PathType(false, [] + [OptionSegment(Named("String"))]);
    assert OptionOf(Named("TaggedFields")) == PathType(false, [] + [OptionSegment(Named("TaggedFields"))]);
    assert FieldDefs(named).value == ApiVersionsRequestDef.fields;
    OptionTaggedFieldsNotFound("tagged_fields", NoFieldOptions.(minVersion := Some(3)), []);
    assert named[2].ty == PathType(false, [] + [OptionSegment(Named("TaggedFields"))]);
    assert forall i :: 0 <= i < |named| ==> !MarksTaggedFields(named[i]);
  }

  datatype ApiVersionsRequest = ApiVersionsRequest(
    clientSoftwareName: Option<seq<byte>>,
    clientSoftwareVersion: Option<seq<byte>>,
    taggedFields: Option<TaggedFields>)

  /** The generated serializer, for a tagged-field map iterated in `iterate`'s order. */
  function ApiVersionsRequestSchema(iterate: Iteration, stringEncoder: Encoder<Value>): (s: SerializeSchema<Value>)
    ensures Realises(ApiVersionsRequestDef, s)
  {
    SerializeSchema(4, [
      SerializeField(AtLeast(3), true, Some(CompactStringHook), stringEncoder),
      SerializeField(AtLeast(3), true, Some(CompactStringHook), stringEncoder),
      SerializeField(AtLeast(3), true, None, TaggedEncoder(iterate))])
  }

  /** The request as the sequence of its field values; every field is an `Option`. */
  function ApiVersionsRequestValues(r: ApiVersionsRequest): (values: seq<Option<Value>>)
    ensures |values| == 3
    ensures values[0].Some? <==> r.clientSoftwareName.Some?
    ensures values[1].Some? <==> r.clientSoftwareVersion.Some?
    ensures values[2].Some? <==> r.taggedFields.Some?
  {
    [ if r.clientSoftwareName.Some? then Some(Str(r.clientSoftwareName.value)) else None,
      if r.clientSoftwareVersion.Some? then Some(Str(r.clientSoftwareVersion.value)) else None,
      if r.taggedFields.Some? then Some(Tagged(r.taggedFields.value)) else None ]
  }

  /** A string short enough for its compact length prefix. */
  predicate ShortString(o: Option<seq<byte>>) {
    o.Some? ==> |o.value| + 1 < U64_LIMIT
  }

  /** An optional compact string: nothing when absent, else the varint of length + 1 and the bytes. */
  function CompactOrNothing(o: Option<seq<byte>>): seq<byte>
    requires ShortString(o)
  {
    if o.None? then [] else EncodeVarInt(|o.value| + 1) + o.value
  }

  /** An optional tagged-field container: nothing when absent. */
  function TaggedOrNothing(iterate: Iteration, o: Option<TaggedFields>): seq<byte> {
    if o.None? then [] else EncodeTaggedFields(o.value, iterate(o.value))
  }

  lemma Concat3(a: seq<byte>, b: seq<byte>, c: seq<byte>)
    ensures Concat([a, b, c]) == a + b + c
  {
    assert [a, b, c][1..] == [b, c] && [b, c][1..] == [c] && [c][1..] == [];
    assert Concat([c]) == c;
    assert Concat([b, c]) == b + c;
  }

  /**
   * The body: refused above version 4, empty at versions up to 2, and at
   * versions 3 and 4 the name, the version and the tagged fields, each only
   * when present, in that order.
   */
  lemma ApiVersionsRequestLayout(iterate: Iteration, stringEncoder: Encoder<Value>, r: ApiVersionsRequest, version: ApiVersion)
    requires ShortString(r.clientSoftwareName) && ShortString(r.clientSoftwareVersion)
    ensures Encode(ApiVersionsRequestSchema(iterate, stringEncoder), ApiVersionsRequestValues(r), version)
         == if version > 4 then Err(UnsupportedVersion(4, version))
            else if version < 3 then Ok([])
            else Ok(CompactOrNothing(r.clientSoftwareName) + CompactOrNothing(r.clientSoftwareVersion)
                    + TaggedOrNothing(iterate, r.taggedFields))
  {
    var s := ApiVersionsRequestSchema(iterate, stringEncoder);
    var values := ApiVersionsRequestValues(r);
    if version <= 4 {
      var parts := if version < 3 then [[], [], []]
                   else [CompactOrNothing(r.clientSoftwareName), CompactOrNothing(r.clientSoftwareVersion),
                         TaggedOrNothing(iterate, r.taggedFields)];
      assert EmitField(s.fields[0], values[0], version) == Emitted(parts[0], None);
      assert EmitField(s.fields[1], values[1], version) == Emitted(parts[1], None);
      assert EmitField(s.fields[2], values[2], version) == Emitted(parts[2], None);
      EmitFromConcatenates(s.fields, values, version, 0, parts);
      Concat3(parts[0], parts[1], parts[2]);
    }
  }

  /**
   * The request the client builds before negotiating, with both strings and
   * an empty tagged-field map, is at version 3 the two compact strings and
   * the single byte 0.
   */
  lemma SyncRequestLayout(iterate: Iteration, stringEncoder: Encoder<Value>, name: seq<byte>, ver: seq<byte>)
    requires |name| + 1 < U64_LIMIT && |ver| + 1 < U64_LIMIT
    ensures Encode(ApiVersionsRequestSchema(iterate, stringEncoder),
                   ApiVersionsRequestValues(ApiVersionsRequest(Some(name), Some(ver), Some(map[]))), 3)
         == Ok(EncodeVarInt(|name| + 1) + name + EncodeVarInt(|ver| + 1) + ver + [0])
  {
    ApiVersionsRequestLayout(iterate, stringEncoder, ApiVersionsRequest(Some(name), Some(ver), Some(map[])), 3);
    var order := iterate(map[]);
    assert order == [];
    EncodeEmptyTaggedFields();
    assert TaggedOrNothing(iterate, Some(map[])) == [0];
    assert CompactOrNothing(Some(name)) + CompactOrNothing(Some(ver)) + [0]
        == EncodeVarInt(|name| + 1) + name + EncodeVarInt(|ver| + 1) + ver + [0];
  }
}
