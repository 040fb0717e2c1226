/**
 * What the code generated by `#[derive(VersionedSerialize)]` and
 * `#[derive(VersionedDeserialize)]` does (kafcars-inner-macros/src/
 * versioned_serialize.rs and versioned_deserialize.rs), as an interpreter over
 * a schema: the struct's `max_version` and its fields in declaration order,
 * each with its version window, whether it is an `Option`, its
 * `serialize_with` hook and the codec of its type.
 *
 * A struct value is the sequence of its field values; a field of type
 * `Option<T>` holds an `Option<V>`, any other field holds `Some(x)`.
 */
module Versioned {
  import opened Errors
  import opened Wire
  import opened Deserializer
  import opened Common

  // ---------------------------------------------------------------------------
  // Version windows.

  /** The condition the generators build from a field's `min_version` and `max_version`. */
  datatype Window =
    | Between(min: ApiVersion, max: ApiVersion)
    | AtLeast(min: ApiVersion)
    | AtMost(max: ApiVersion)
    | Always

  /** The first branch whose attributes are present wins: both bounds, then min alone, then max alone. */
  function WindowOf(o: FieldOptions): Window {
    if o.minVersion.Some? && o.maxVersion.Some? then Between(o.minVersion.value, o.maxVersion.value)
    else if o.minVersion.Some? then AtLeast(o.minVersion.value)
    else if o.maxVersion.Some? then AtMost(o.maxVersion.value)
    else Always
  }

  /** Whether the generated `if` lets the field through at `version`. */
  predicate Admits(w: Window, version: int) {
    match w
    case Between(min, max) => version >= min && version <= max
    case AtLeast(min) => version >= min
    case AtMost(max) => version <= max
    case Always => true
  }

  /** A gated field sits behind an `if`; an ungated one is always serialized and deserialized. */
  predicate Gated(w: Window) {
    !w.Always?
  }

  /**
   * The chain of cases is the same as reading every present bound as a limit:
   * a field is admitted exactly when the version is at least its `min_version`
   * (if any) and at most its `max_version` (if any), and it is gated exactly
   * when it has one of them.
   */
  lemma WindowOfMeaning(o: FieldOptions, version: int)
    ensures Admits(WindowOf(o), version)
        <==> (o.minVersion.Some? ==> version >= o.minVersion.value) && (o.maxVersion.Some? ==> version <= o.maxVersion.value)
    ensures Gated(WindowOf(o)) <==> o.minVersion.Some? || o.maxVersion.Some?
    ensures !Gated(WindowOf(o)) ==> Admits(WindowOf(o), version)
  {
  }

  // ---------------------------------------------------------------------------
  // The derivation: from a struct declaration to the shape of its schema.

  /** `VersionedSerializeOptions` / `VersionedDeserializeOptions`: both default to `max_version` 0 and no `tag_version`. */
  datatype VersionedOptions = VersionedOptions(maxVersion: ApiVersion, tagVersion: Option<ApiVersion>)

  /**
   * One field as both generators see it: its window, whether its type is an
   * `Option`, its `serialize_with` path, and the type whose codec is used (the
   * `T` of an `Option<T>`, the declared type otherwise).
   */
  datatype FieldDef = FieldDef(window: Window, isOption: bool, serializeWith: Option<string>, valueType: Ty)

  datatype SchemaDef = SchemaDef(maxVersion: ApiVersion, fields: seq<FieldDef>)

  /** A field whose attributes do not parse fails the derivation. */
  function FieldDefOf(field: Field): (r: Result<FieldDef, DeriveError>)
    ensures r.Err? <==> field.options.None?
    ensures r.Err? ==> r.error == InvalidAttributes
    ensures r.Ok? ==> (r.value.isOption <==> OptionType(field.ty).Some?)
  {
    if field.options.None? then Err(InvalidAttributes)
    else
      var o := field.options.value;
      var inner := OptionType(field.ty);
      Ok(FieldDef(WindowOf(o), inner.Some?, o.serializeWith, inner.GetOr(field.ty)))
  }

  /** The loop over the named fields: stops at the first field whose attributes do not parse. */
  function FieldDefs(fields: seq<Field>): (r: Result<seq<FieldDef>, DeriveError>)
    ensures r.Ok? <==> forall i :: 0 <= i < |fields| ==> fields[i].options.Some?
    ensures r.Err? ==> r.error == InvalidAttributes
    ensures r.Ok? ==> |r.value| == |fields| && forall i :: 0 <= i < |fields| ==> r.value[i] == FieldDefOf(fields[i]).value
  {
    if |fields| == 0 then Ok([])
    else
      var first :- FieldDefOf(fields[0]);
      var rest :- FieldDefs(fields[1..]);
      assert forall i :: 1 <= i < |fields| ==> fields[i] == fields[1..][i - 1];
      Ok([first] + rest)
  }

  /**
   * The part the two derive macros share: only a struct with named fields
   * derives; the schema takes the `max_version` given and one entry per field.
   */
  function DeriveSchemaDef(opts: VersionedOptions, input: DeriveInput): (r: Result<SchemaDef, DeriveError>)
    ensures !input.data.Struct? ==> r == Err(OnlyStructs)
    ensures input.data.Struct? && input.data.fields.UnnamedFields? ==> r == Err(TupleStructs)
    ensures input.data.Struct? && input.data.fields.UnitFields? ==> r == Err(UnitStructs)
    ensures r.Ok? ==> r.value.maxVersion == opts.maxVersion
    ensures r.Ok? ==> input.data.Struct? && input.data.fields.NamedFields?
                      && |r.value.fields| == |input.data.fields.named|
  {
    match input.data
    case Struct(fields) =>
      (match fields
       case NamedFields(named) =>
         var defs :- FieldDefs(named);
         Ok(SchemaDef(opts.maxVersion, defs))
       case UnnamedFields => Err(TupleStructs)
       case UnitFields => Err(UnitStructs))
    case _ => Err(OnlyStructs)
  }

  /** `tag_version` is accepted and never used: the derivation is the same whatever it holds. */
  lemma TagVersionUnused(opts: VersionedOptions, input: DeriveInput, tagVersion: Option<ApiVersion>)
    ensures DeriveSchemaDef(opts, input) == DeriveSchemaDef(opts.(tagVersion := tagVersion), input)
  {
  }

  /** `deserialize_with`, `tag` and `default` are parsed and never consulted. */
  lemma UnusedFieldOptions(field: Field, tag: Option<ApiVersion>, default: Option<string>, deserializeWith: Option<string>)
    requires field.options.Some?
    ensures FieldDefOf(field)
         == FieldDefOf(field.(options := Some(field.options.value.(tag := tag, default := default, deserializeWith := deserializeWith))))
  {
  }

  // ---------------------------------------------------------------------------
  // The schemas the generated code runs on.

  /**
   * `T::serialize_versioned(x, writer, version)`: the bytes it writes into the
   * shared writer before it returns, and the error it returns, if any. A
   * nested struct that fails on an inner field leaves its earlier inner bytes
   * in the writer.
   */
  type Encoder<-V> = (V, ApiVersion) -> Emitted

  /** `T::deserialize_versioned(data, version)` on the bytes left to read. */
  type Decoder<V> = (seq<byte>, ApiVersion) -> Decoded<V>

  /** A `serialize_with` function: it is handed the value and the writer, not the version. */
  type Hook<-V> = V -> Emitted

  datatype SerializeField<-V> = SerializeField(window: Window, isOption: bool, hook: Option<Hook<V>>, encode: Encoder<V>)

  datatype SerializeSchema<-V> = SerializeSchema(maxVersion: ApiVersion, fields: seq<SerializeField<V>>)

  datatype DeserializeField<V> = DeserializeField(window: Window, decode: Decoder<V>)

  datatype DeserializeSchema<V> = DeserializeSchema(maxVersion: ApiVersion, fields: seq<DeserializeField<V>>)

  /** The Rust types: one value per field, and only an `Option` field can be empty. */
  predicate Fits<V>(fields: seq<SerializeField<V>>, values: seq<Option<V>>) {
    |values| == |fields| && forall i :: 0 <= i < |fields| && !fields[i].isOption ==> values[i].Some?
  }

  /**
   * `s` is what `#[derive(VersionedSerialize)]` generates from `def`: the same
   * `max_version`, and per field the same window, the same `Option` test, and
   * a hook exactly where `serialize_with` is given.
   */
  predicate Realises<V>(def: SchemaDef, s: SerializeSchema<V>) {
    && s.maxVersion == def.maxVersion
    && |s.fields| == |def.fields|
    && forall i :: 0 <= i < |s.fields| ==>
         && s.fields[i].window == def.fields[i].window
         && s.fields[i].isOption == def.fields[i].isOption
         && (s.fields[i].hook.Some? <==> def.fields[i].serializeWith.Some?)
  }

  /**
   * `d` is what `#[derive(VersionedDeserialize)]` generates from `def`: the
   * same `max_version` and windows. The generated code only compiles when
   * exactly the gated fields are `Option`s.
   */
  predicate RealisesDecoder<V>(def: SchemaDef, d: DeserializeSchema<V>) {
    && d.maxVersion == def.maxVersion
    && |d.fields| == |def.fields|
    && forall i :: 0 <= i < |d.fields| ==>
         && d.fields[i].window == def.fields[i].window
         && (def.fields[i].isOption <==> Gated(def.fields[i].window))
  }

  // ---------------------------------------------------------------------------
  // Serialization.

  /** The bytes written before the generated code returned, and the error it returned, if any. */
  datatype Emitted = Emitted(bytes: seq<byte>, failure: Option<SerializationError>)

  /** An encoder that writes everything or, on an error, nothing. */
  function Written(r: Result<seq<byte>, SerializationError>): (e: Emitted)
    ensures e.failure.None? <==> r.Ok?
    ensures r.Ok? ==> e.bytes == r.value
    ensures r.Err? ==> e.bytes == [] && e.failure == Some(r.error)
  {
    match r
    case Ok(b) => Emitted(b, None)
    case Err(err) => Emitted([], Some(err))
  }

  /** `bytes` written in front of what `e` stands for. */
  function Prepend(bytes: seq<byte>, e: Emitted): Emitted {
    Emitted(bytes + e.bytes, e.failure)
  }

  /** The value a present field contributes: through its hook when it has one, through its type's encoder otherwise. */
  function WriteValue<V>(f: SerializeField<V>, x: V, version: ApiVersion): Emitted {
    match f.hook
    case Some(hook) => hook(x)
    case None => f.encode(x, version)
  }

  /** One field's statement in the generated `serialize_versioned`. */
  function EmitField<V>(f: SerializeField<V>, x: Option<V>, version: ApiVersion): (r: Emitted)
    requires f.isOption || x.Some?
    ensures !Admits(f.window, version) || x.None? ==> r == Emitted([], None)
  {
    if !Admits(f.window, version) then Emitted([], None)
    else if f.isOption then
      (match x
       case Some(y) => WriteValue(f, y, version)
       case None => Emitted([], None))
    else WriteValue(f, x.value, version)
  }

  /** The fields from index `i` on, in declaration order; the first error ends the method. */
  function EmitFrom<V>(fields: seq<SerializeField<V>>, values: seq<Option<V>>, version: ApiVersion, i: nat): Emitted
    requires Fits(fields, values) && i <= |fields|
    decreases |fields| - i
  {
    if i == |fields| then Emitted([], None)
    else
      var e := EmitField(fields[i], values[i], version);
      if e.failure.Some? then e else Prepend(e.bytes, EmitFrom(fields, values, version, i + 1))
  }

  /** The generated `serialize_versioned`: the version check comes before anything is written. */
  function Emit<V>(s: SerializeSchema<V>, values: seq<Option<V>>, version: ApiVersion): Emitted
    requires Fits(s.fields, values)
  {
    if version > s.maxVersion then Emitted([], Some(UnsupportedVersion(s.maxVersion, version)))
    else EmitFrom(s.fields, values, version, 0)
  }

  /** The result `serialize_versioned` returns. */
  function Outcome(e: Emitted): Result<(), SerializationError> {
    if e.failure.None? then Ok(()) else Err(e.failure.value)
  }

  /** The complete encoding, when there is one. */
  function Encode<V>(s: SerializeSchema<V>, values: seq<Option<V>>, version: ApiVersion): Result<seq<byte>, SerializationError>
    requires Fits(s.fields, values)
  {
    var e := Emit(s, values, version);
    if e.failure.None? then Ok(e.bytes) else Err(e.failure.value)
  }

  /** Above `max_version` the result is UnsupportedVersion and nothing at all is written. */
  lemma EncodeRejectsNewerVersion<V>(s: SerializeSchema<V>, values: seq<Option<V>>, version: ApiVersion)
    requires Fits(s.fields, values) && version > s.maxVersion
    ensures Emit(s, values, version) == Emitted([], Some(UnsupportedVersion(s.maxVersion, version)))
    ensures Encode(s, values, version) == Err(UnsupportedVersion(s.maxVersion, version))
  {
  }

  /** The concatenation of the parts. */
  function Concat(parts: seq<seq<byte>>): seq<byte> {
    if |parts| == 0 then [] else parts[0] + Concat(parts[1..])
  }

  /**
   * When every field from `i` on succeeds, the output is the concatenation of
   * what each contributes, in declaration order.
   */
  lemma {:induction false} EmitFromConcatenates<V>(
    fields: seq<SerializeField<V>>, values: seq<Option<V>>, version: ApiVersion, i: nat, parts: seq<seq<byte>>)
    requires Fits(fields, values) && i <= |fields| && |parts| == |fields| - i
    requires forall j :: i <= j < |fields| ==> EmitField(fields[j], values[j], version) == Emitted(parts[j - i], None)
    ensures EmitFrom(fields, values, version, i) == Emitted(Concat(parts), None)
    decreases |fields| - i
  {
    if i < |fields| {
      assert EmitField(fields[i], values[i], version) == Emitted(parts[0], None);
      EmitFromConcatenates(fields, values, version, i + 1, parts[1..]);
    }
  }

  /**
   * The first failing field ends serialization with its error: what was
   * written is what the fields before it contributed, followed by whatever the
   * failing field wrote before it returned.
   */
  lemma {:induction false} EmitFromStopsAtFailure<V>(
    fields: seq<SerializeField<V>>, values: seq<Option<V>>, version: ApiVersion, i: nat, k: nat,
    parts: seq<seq<byte>>, partial: seq<byte>, e: SerializationError)
    requires Fits(fields, values) && i <= k < |fields| && |parts| == k - i
    requires forall j :: i <= j < k ==> EmitField(fields[j], values[j], version) == Emitted(parts[j - i], None)
    requires EmitField(fields[k], values[k], version) == Emitted(partial, Some(e))
    ensures EmitFrom(fields, values, version, i) == Emitted(Concat(parts) + partial, Some(e))
    decreases k - i
  {
    if i < k {
      assert EmitField(fields[i], values[i], version) == Emitted(parts[0], None);
      EmitFromStopsAtFailure(fields, values, version, i + 1, k, parts[1..], partial, e);
      assert parts[0] + (Concat(parts[1..]) + partial) == Concat(parts) + partial;
    } else {
      assert Concat(parts) + partial == partial;
    }
  }

  /**
   * Only the fields the version admits matter: two values that agree on
   * those serialize to the same bytes and the same result.
   */
  lemma {:induction false} EmitFromIgnoresFieldsOutsideWindow<V>(
    fields: seq<SerializeField<V>>, values: seq<Option<V>>, others: seq<Option<V>>, version: ApiVersion, i: nat)
    requires Fits(fields, values) && Fits(fields, others) && i <= |fields|
    requires forall j :: 0 <= j < |fields| && Admits(fields[j].window, version) ==> values[j] == others[j]
    ensures EmitFrom(fields, values, version, i) == EmitFrom(fields, others, version, i)
    decreases |fields| - i
  {
    if i < |fields| {
      assert EmitField(fields[i], values[i], version) == EmitField(fields[i], others[i], version);
      EmitFromIgnoresFieldsOutsideWindow(fields, values, others, version, i + 1);
    }
  }

  lemma EncodeIgnoresFieldsOutsideWindow<V>(s: SerializeSchema<V>, values: seq<Option<V>>, others: seq<Option<V>>, version: ApiVersion)
    requires Fits(s.fields, values) && Fits(s.fields, others)
    requires forall j :: 0 <= j < |s.fields| && Admits(s.fields[j].window, version) ==> values[j] == others[j]
    ensures Emit(s, values, version) == Emit(s, others, version)
  {
    if version <= s.maxVersion {
      EmitFromIgnoresFieldsOutsideWindow(s.fields, values, others, version, 0);
    }
  }

  /** A field with a hook writes the same bytes at every version its window admits: the version is not passed on. */
  lemma HookIgnoresVersion<V>(f: SerializeField<V>, x: V, v1: ApiVersion, v2: ApiVersion)
    requires f.hook.Some? && Admits(f.window, v1) && Admits(f.window, v2)
    ensures EmitField(f, Some(x), v1) == EmitField(f, Some(x), v2) == f.hook.value(x)
  {
  }

  // ---------------------------------------------------------------------------
  // Deserialization.

  /** One field's `let` in the generated `deserialize_versioned`. */
  function DecodeField<V>(f: DeserializeField<V>, data: seq<byte>, version: ApiVersion): (r: Decoded<Option<V>>)
    ensures !Admits(f.window, version) ==> r == Ok((None, data))
    ensures r.Ok? ==> (r.value.0.Some? <==> Admits(f.window, version))
    ensures Admits(f.window, version) ==> (r.Ok? <==> f.decode(data, version).Ok?)
  {
    if Gated(f.window) then
      if Admits(f.window, version) then
        var x :- f.decode(data, version);
        Ok((Some(x.0), x.1))
      else Ok((None, data))
    else
      var x :- f.decode(data, version);
      Ok((Some(x.0), x.1))
  }

  /** `values` decoded in front of what `d` stands for. */
  function PrependValues<V>(values: seq<Option<V>>, d: Decoded<seq<Option<V>>>): Decoded<seq<Option<V>>> {
    if d.Ok? then Ok((values + d.value.0, d.value.1)) else d
  }

  lemma PrependNothing<V>(d: Decoded<seq<Option<V>>>)
    ensures PrependValues([], d) == d
  {
    if d.Ok? {
      assert [] + d.value.0 == d.value.0;
    }
  }

  lemma PrependValuesStep<V>(values: seq<Option<V>>, x: Option<V>, d: Decoded<seq<Option<V>>>)
    ensures PrependValues(values, if d.Ok? then Ok(([x] + d.value.0, d.value.1)) else d) == PrependValues(values + [x], d)
  {
    if d.Ok? {
      assert values + ([x] + d.value.0) == values + [x] + d.value.0;
    }
  }

  /** The fields from index `i` on; the first error propagates and no struct is built. */
  function DecodeFrom<V>(fields: seq<DeserializeField<V>>, data: seq<byte>, version: ApiVersion, i: nat): (r: Decoded<seq<Option<V>>>)
    requires i <= |fields|
    ensures r.Ok? ==> |r.value.0| == |fields| - i
    ensures r.Ok? ==> forall j :: i <= j < |fields| ==> (r.value.0[j - i].Some? <==> Admits(fields[j].window, version))
    decreases |fields| - i
  {
    if i == |fields| then Ok(([], data))
    else
      var first :- DecodeField(fields[i], data, version);
      var rest :- DecodeFrom(fields, first.1, version, i + 1);
      Ok(([first.0] + rest.0, rest.1))
  }

  /** The generated `deserialize_versioned`: the version check comes before anything is read. */
  function Decode<V>(s: DeserializeSchema<V>, data: seq<byte>, version: ApiVersion): (r: Decoded<seq<Option<V>>>)
    ensures version > s.maxVersion ==> r == Err(UnsupportedVersion(s.maxVersion, version))
    ensures r.Ok? ==> |r.value.0| == |s.fields|
    ensures r.Ok? ==> forall j :: 0 <= j < |s.fields| ==> (r.value.0[j].Some? <==> Admits(s.fields[j].window, version))
  {
    if version > s.maxVersion then Err(UnsupportedVersion(s.maxVersion, version))
    else DecodeFrom(s.fields, data, version, 0)
  }

  // ---------------------------------------------------------------------------
  // Round trip.

  /** `decode` reads back what `encode` wrote, whatever follows it. */
  ghost predicate Inverse<V(!new)>(encode: Encoder<V>, decode: Decoder<V>) {
    forall x: V, version: ApiVersion, rest: seq<byte> ::
      encode(x, version).failure.None? ==> decode(encode(x, version).bytes + rest, version) == Ok((x, rest))
  }

  /**
   * A serializer and a deserializer derived from the same struct: the same
   * `max_version` and windows, a field is an `Option` exactly when it is gated
   * (otherwise the generated deserializer does not type-check), no hooks, and
   * each field's decoder inverts its encoder.
   */
  ghost predicate Paired<V(!new)>(s: SerializeSchema<V>, d: DeserializeSchema<V>) {
    && s.maxVersion == d.maxVersion
    && |s.fields| == |d.fields|
    && forall i :: 0 <= i < |s.fields| ==>
         && s.fields[i].window == d.fields[i].window
         && (s.fields[i].isOption <==> Gated(s.fields[i].window))
         && s.fields[i].hook.None?
         && Inverse(s.fields[i].encode, d.fields[i].decode)
  }

  /** The value with every field the version does not admit set to None. */
  function Project<V>(fields: seq<SerializeField<V>>, values: seq<Option<V>>, version: ApiVersion): (p: seq<Option<V>>)
    requires |values| == |fields|
    ensures |p| == |values|
    ensures forall i :: 0 <= i < |p| ==> p[i] == if Admits(fields[i].window, version) then values[i] else None
  {
    seq(|values|, i requires 0 <= i < |values| => if Admits(fields[i].window, version) then values[i] else None)
  }

  /** Inside its window a gated field must hold a value, or the decoder would read one that was never written. */
  predicate PresentWhereAdmitted<V>(fields: seq<SerializeField<V>>, values: seq<Option<V>>, version: ApiVersion)
    requires |values| == |fields|
  {
    forall i :: 0 <= i < |fields| && Admits(fields[i].window, version) ==> values[i].Some?
  }

  lemma FieldRoundTrip<V(!new)>(f: SerializeField<V>, g: DeserializeField<V>, x: Option<V>, version: ApiVersion, bytes: seq<byte>, rest: seq<byte>)
    requires f.window == g.window && (f.isOption <==> Gated(f.window)) && f.hook.None? && Inverse(f.encode, g.decode)
    requires f.isOption || x.Some?
    requires Admits(f.window, version) ==> x.Some?
    requires EmitField(f, x, version) == Emitted(bytes, None)
    ensures DecodeField(g, bytes + rest, version) == Ok((if Admits(f.window, version) then x else None, rest))
  {
    if Admits(f.window, version) {
      assert bytes == f.encode(x.value, version).bytes;
    } else {
      assert bytes + rest == rest;
    }
  }

  lemma {:induction false} DecodeFromEmitted<V(!new)>(
    s: SerializeSchema<V>, d: DeserializeSchema<V>, values: seq<Option<V>>, version: ApiVersion, i: nat, rest: seq<byte>)
    requires Paired(s, d) && Fits(s.fields, values) && PresentWhereAdmitted(s.fields, values, version) && i <= |s.fields|
    requires EmitFrom(s.fields, values, version, i).failure.None?
    ensures DecodeFrom(d.fields, EmitFrom(s.fields, values, version, i).bytes + rest, version, i)
         == Ok((Project(s.fields, values, version)[i..], rest))
    decreases |s.fields| - i
  {
    var p := Project(s.fields, values, version);
    if i == |s.fields| {
      assert EmitFrom(s.fields, values, version, i).bytes + rest == rest;
      assert p[i..] == [];
    } else {
      var b := EmitField(s.fields[i], values[i], version).bytes;
      var tail := EmitFrom(s.fields, values, version, i + 1);
      assert EmitFrom(s.fields, values, version, i).bytes + rest == b + (tail.bytes + rest);
      FieldRoundTrip(s.fields[i], d.fields[i], values[i], version, b, tail.bytes + rest);
      DecodeFromEmitted(s, d, values, version, i + 1, rest);
      assert p[i..] == [p[i]] + p[i + 1..];
    }
  }

  /**
   * Round trip: decoding what the serializer wrote at `version` gives back the
   * value with its fields outside their windows set to None, and leaves
   * whatever followed untouched.
   */
  lemma EncodeDecodeRoundTrip<V(!new)>(s: SerializeSchema<V>, d: DeserializeSchema<V>, values: seq<Option<V>>, version: ApiVersion, rest: seq<byte>)
    requires Paired(s, d) && Fits(s.fields, values) && PresentWhereAdmitted(s.fields, values, version)
    requires Encode(s, values, version).Ok?
    ensures Decode(d, Encode(s, values, version).value + rest, version) == Ok((Project(s.fields, values, version), rest))
  {
    DecodeFromEmitted(s, d, values, version, 0, rest);
    assert Project(s.fields, values, version)[0..] == Project(s.fields, values, version);
  }

  // ---------------------------------------------------------------------------
  // The generated methods, on a Writer and a Reader.

  /** `self.field.serialize_versioned(writer, version)?` or `hook(field, writer)?`. */
  method WriteField<V>(f: SerializeField<V>, x: V, w: Writer, version: ApiVersion) returns (res: Result<(), SerializationError>)
    modifies w
    ensures w.bytes == old(w.bytes) + WriteValue(f, x, version).bytes
    ensures res == Outcome(WriteValue(f, x, version))
  {
    var out := if f.hook.Some? then f.hook.value(x) else f.encode(x, version);
    w.WriteAll(out.bytes);
    res := if out.failure.Some? then Err(out.failure.value) else Ok(());
  }

  /** One field's statement of the generated `serialize_versioned`: the window test, the `Option` test, the write. */
  method SerializeOneField<V>(f: SerializeField<V>, x: Option<V>, w: Writer, version: ApiVersion)
    returns (res: Result<(), SerializationError>)
    requires f.isOption || x.Some?
    modifies w
    ensures w.bytes == old(w.bytes) + EmitField(f, x, version).bytes
    ensures res == Outcome(EmitField(f, x, version))
  {
    if Admits(f.window, version) {
      if f.isOption {
        if x.Some? {
          res := WriteField(f, x.value, w, version);
          return;
        }
      } else {
        res := WriteField(f, x.value, w, version);
        return;
      }
    }
    assert w.bytes + [] == w.bytes;
    res := Ok(());
  }

  /** Past a field that writes `b`, what is left to emit is what follows it. */
  lemma EmitFromStep<V>(fields: seq<SerializeField<V>>, values: seq<Option<V>>, version: ApiVersion, i: nat, written: seq<byte>)
    requires Fits(fields, values) && i < |fields| && EmitField(fields[i], values[i], version).failure.None?
    ensures Prepend(written, EmitFrom(fields, values, version, i))
         == Prepend(written + EmitField(fields[i], values[i], version).bytes, EmitFrom(fields, values, version, i + 1))
  {
    var b := EmitField(fields[i], values[i], version).bytes;
    assert written + (b + EmitFrom(fields, values, version, i + 1).bytes)
        == written + b + EmitFrom(fields, values, version, i + 1).bytes;
  }

  /** A failing field ends the output after what it wrote itself. */
  lemma EmitFromFails<V>(fields: seq<SerializeField<V>>, values: seq<Option<V>>, version: ApiVersion, i: nat, written: seq<byte>)
    requires Fits(fields, values) && i < |fields| && EmitField(fields[i], values[i], version).failure.Some?
    ensures Prepend(written, EmitFrom(fields, values, version, i))
         == Emitted(written + EmitField(fields[i], values[i], version).bytes, EmitField(fields[i], values[i], version).failure)
  {
  }

  method SerializeVersioned<V>(s: SerializeSchema<V>, values: seq<Option<V>>, w: Writer, version: ApiVersion)
    returns (res: Result<(), SerializationError>)
    requires Fits(s.fields, values)
    modifies w
    ensures w.bytes == old(w.bytes) + Emit(s, values, version).bytes
    ensures res == Outcome(Emit(s, values, version))
  {
    if version > s.maxVersion {
      assert w.bytes + [] == w.bytes;
      return Err(UnsupportedVersion(s.maxVersion, version));
    }
    ghost var start := w.bytes;
    ghost var written: seq<byte> := [];
    assert Prepend([], EmitFrom(s.fields, values, version, 0)) == EmitFrom(s.fields, values, version, 0);
    for i := 0 to |s.fields|
      invariant w.bytes == start + written
      invariant EmitFrom(s.fields, values, version, 0) == Prepend(written, EmitFrom(s.fields, values, version, i))
    {
      var u := SerializeOneField(s.fields[i], values[i], w, version);
      AppendAssoc(start, written, EmitField(s.fields[i], values[i], version).bytes);
      if u.Err? {
        EmitFromFails(s.fields, values, version, i, written);
        return Err(u.error);
      }
      EmitFromStep(s.fields, values, version, i, written);
      written := written + EmitField(s.fields[i], values[i], version).bytes;
    }
    assert written + [] == written;
    res := Ok(());
  }

  /** `<T as DeserializeVersioned<R>>::deserialize_versioned(data, version)`. */
  method ReadWith<V>(r: Reader, decode: Decoder<V>, version: ApiVersion) returns (res: Result<V, SerializationError>)
    modifies r
    ensures Follows(res, r.remaining, decode(old(r.remaining), version))
  {
    var d := decode(r.remaining, version);
    if d.Err? {
      return Err(d.error);
    }
    r.remaining := d.value.1;
    res := Ok(d.value.0);
  }

  /** One field's `let` of the generated `deserialize_versioned`. */
  method DeserializeOneField<V>(f: DeserializeField<V>, r: Reader, version: ApiVersion) returns (res: Result<Option<V>, SerializationError>)
    modifies r
    ensures Follows(res, r.remaining, DecodeField(f, old(r.remaining), version))
  {
    if Gated(f.window) {
      if Admits(f.window, version) {
        var x :- ReadWith(r, f.decode, version);
        res := Ok(Some(x));
      } else {
        res := Ok(None);
      }
    } else {
      var x :- ReadWith(r, f.decode, version);
      res := Ok(Some(x));
    }
  }

  /** Past a field that decodes to `x`, what is left to decode is what follows it. */
  lemma DecodeFromStep<V>(fields: seq<DeserializeField<V>>, data: seq<byte>, version: ApiVersion, i: nat, values: seq<Option<V>>)
    requires i < |fields| && DecodeField(fields[i], data, version).Ok?
    ensures PrependValues(values, DecodeFrom(fields, data, version, i))
         == PrependValues(values + [DecodeField(fields[i], data, version).value.0],
                          DecodeFrom(fields, DecodeField(fields[i], data, version).value.1, version, i + 1))
  {
    var first := DecodeField(fields[i], data, version).value;
    var d := DecodeFrom(fields, first.1, version, i + 1);
    PrependValuesStep(values, first.0, d);
  }

  method DeserializeVersioned<V>(s: DeserializeSchema<V>, r: Reader, version: ApiVersion)
    returns (res: Result<seq<Option<V>>, SerializationError>)
    modifies r
    ensures Follows(res, r.remaining, Decode(s, old(r.remaining), version))
  {
    if version > s.maxVersion {
      return Err(UnsupportedVersion(s.maxVersion, version));
    }
    var values: seq<Option<V>> := [];
    PrependNothing(DecodeFrom(s.fields, r.remaining, version, 0));
    for i := 0 to |s.fields|
      invariant Decode(s, old(r.remaining), version) == PrependValues(values, DecodeFrom(s.fields, r.remaining, version, i))
    {
      ghost var data := r.remaining;
      var x :- DeserializeOneField(s.fields[i], r, version);
      DecodeFromStep(s.fields, data, version, i, values);
      values := values + [x];
    }
    assert values + [] == values;
    res := Ok(values);
  }
}
