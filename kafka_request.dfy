/**
 * `#[derive(KafkaRequest)]` (kafcars-inner-macros/src/kafka_request.rs): it
 * derives the request's serializer with the same `max_version` and
 * `tag_version`, then the `KafkaRequest` constants: the response type, the
 * API key, the version range and the first version that carries tagged fields.
 */
module KafkaRequestDerive {
  import opened Errors
  import opened Wire
  import opened Common
  import opened Messages
  import opened Versioned

  /** `KafkaRequestOptions`: `min_version` (0 when absent), `max_version` (default 0), `tag_version`, `api_key`, `response`. */
  datatype RequestOptions = RequestOptions(
    minVersion: Option<ApiVersion>,
    maxVersion: ApiVersion,
    tagVersion: Option<ApiVersion>,
    apiKey: Option<ApiKey>,
    response: Option<Ty>)

  /** Everything the derive produces: the serializer's schema, the constants, and the associated response type. */
  datatype DerivedRequest = DerivedRequest(serializer: SchemaDef, constants: RequestConstants, response: Ty)

  /**
   * A field `find_tagged_field_version` stops at: its attributes parse, it has a
   * `min_version` and a name, and its type is a path whose last segment is
   * `TaggedFields`. (`syn` never builds an empty path; the model reads one as
   * not matching.)
   */
  predicate MarksTaggedFields(f: Field) {
    && f.options.Some?
    && f.options.value.minVersion.Some?
    && f.ident.Some?
    && f.ty.PathType?
    && |f.ty.segments| > 0
    && f.ty.segments[|f.ty.segments| - 1].ident == "TaggedFields"
  }

  /** The `min_version` and name of a marking field. */
  function Marker(f: Field): (ApiVersion, string)
    requires MarksTaggedFields(f)
  {
    (f.options.value.minVersion.value, f.ident.value)
  }

  /** The loop over the named fields: the first marking field wins; every other field is skipped. */
  function FirstTaggedField(fields: seq<Field>): (r: Option<(ApiVersion, string)>)
    ensures r.None? <==> forall i :: 0 <= i < |fields| ==> !MarksTaggedFields(fields[i])
  {
    if |fields| == 0 then None
    else if MarksTaggedFields(fields[0]) then Some(Marker(fields[0]))
    else
      var r := FirstTaggedField(fields[1..]);
      assert forall i :: 1 <= i < |fields| ==> fields[i] == fields[1..][i - 1];
      r
  }

  /** `find_tagged_field_version`: only a struct with named fields is searched. */
  function FindTaggedFieldVersion(input: DeriveInput): Option<(ApiVersion, string)> {
    match input.data
    case Struct(NamedFields(named)) => FirstTaggedField(named)
    case _ => None
  }

  /** The search is a first-match search: the result comes from the first marking field. */
  lemma {:induction false} FirstTaggedFieldIsFirstMatch(fields: seq<Field>, k: nat)
    requires k < |fields| && MarksTaggedFields(fields[k])
    requires forall j :: 0 <= j < k ==> !MarksTaggedFields(fields[j])
    ensures FirstTaggedField(fields) == Some(Marker(fields[k]))
  {
    if k > 0 {
      assert fields[1..][k - 1] == fields[k];
      FirstTaggedFieldIsFirstMatch(fields[1..], k - 1);
    }
  }

  /** A field declared `Option<TaggedFields>` is not found: the last segment of its type is `Option`. */
  lemma OptionTaggedFieldsNotFound(name: string, options: FieldOptions, prefix: seq<Segment>)
    ensures !MarksTaggedFields(Field(Some(name), Some(options), PathType(false, prefix + [OptionSegment(Named("TaggedFields"))])))
  {
    var segments := prefix + [OptionSegment(Named("TaggedFields"))];
    assert segments[|segments| - 1].ident == "Option";
  }

  function DeriveKafkaRequest(opts: RequestOptions, input: DeriveInput): (r: Result<DerivedRequest, DeriveError>)
    ensures DeriveSchemaDef(VersionedOptions(opts.maxVersion, opts.tagVersion), input).Err? ==>
              r == Err(DeriveSchemaDef(VersionedOptions(opts.maxVersion, opts.tagVersion), input).error)
    ensures DeriveSchemaDef(VersionedOptions(opts.maxVersion, opts.tagVersion), input).Ok? ==>
              && (opts.response.None? ==> r == Err(MissingResponse))
              && (opts.response.Some? && opts.apiKey.None? ==> r == Err(MissingApiKey))
              && (opts.response.Some? && opts.apiKey.Some? ==> r.Ok?)
    ensures r.Ok? ==>
              && r.value.constants.apiKey == opts.apiKey.value
              && r.value.constants.apiVersionRange == ApiVersionRange(opts.minVersion.GetOr(0), opts.maxVersion)
              && r.value.serializer.maxVersion == r.value.constants.apiVersionRange.max
              && r.value.response == opts.response.value
  {
    var serializer :- DeriveSchemaDef(VersionedOptions(opts.maxVersion, opts.tagVersion), input);
    if opts.response.None? then Err(MissingResponse)
    else if opts.apiKey.None? then Err(MissingApiKey)
    else
      var tagged := FindTaggedFieldVersion(input);
      var taggedMin := if tagged.Some? then Some(tagged.value.0) else None;
      Ok(DerivedRequest(
        serializer,
        RequestConstants(opts.apiKey.value, ApiVersionRange(opts.minVersion.GetOr(0), opts.maxVersion), taggedMin),
        opts.response.value))
  }

  /**
   * `TAGGED_FIELDS_MIN_VERSION` is the `min_version` of the first marking
   * field, and None when no named field marks.
   */
  lemma TaggedFieldsMinVersionOfDerived(opts: RequestOptions, input: DeriveInput, k: nat)
    requires DeriveKafkaRequest(opts, input).Ok?
    requires input.data.Struct? && input.data.fields.NamedFields?
    requires k <= |input.data.fields.named|
    requires forall j :: 0 <= j < k ==> !MarksTaggedFields(input.data.fields.named[j])
    requires k < |input.data.fields.named| ==> MarksTaggedFields(input.data.fields.named[k])
    ensures DeriveKafkaRequest(opts, input).value.constants.taggedFieldsMinVersion
         == if k < |input.data.fields.named| then input.data.fields.named[k].options.value.minVersion else None
  {
    var named := input.data.fields.named;
    assert FindTaggedFieldVersion(input) == FirstTaggedField(named);
    if k < |named| {
      FirstTaggedFieldIsFirstMatch(named, k);
    }
  }

  /** Nothing compares `min_version` with `max_version`: an inverted range is derived as given. */
  lemma InvertedRangeAccepted(key: ApiKey, response: Ty)
    ensures DeriveKafkaRequest(RequestOptions(Some(5), 2, None, Some(key), Some(response)), DeriveInput("Inverted", Struct(NamedFields([])))).Ok?
    ensures DeriveKafkaRequest(RequestOptions(Some(5), 2, None, Some(key), Some(response)), DeriveInput("Inverted", Struct(NamedFields([])))).value.constants.apiVersionRange
         == ApiVersionRange(5, 2)
  {
  }
}
