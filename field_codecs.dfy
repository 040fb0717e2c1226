/**
 * The field values of the message structs in this model, and the codecs the
 * generated code calls for them: the `SerializeVersioned` /
 * `DeserializeVersioned` impls of the integers and of `TaggedFields`, and the
 * `serialize_compact_string` hook.
 *
 * A field's value is one case of `Value`. The Rust types guarantee that a
 * field only ever holds a value of its own type; a codec handed any other
 * case answers UnknownValue, a situation the source cannot reach.
 */
module FieldCodecs {
  import opened Errors
  import opened Wire
  import opened Serializer
  import opened Deserializer
  import opened Messages
  import opened Versioned

  datatype Value =
    | Int(x: int)                   // i16 / i32 fields (an `ApiVersion` is an i16)
    | Str(s: seq<byte>)             // a `String`, as its UTF-8 bytes
    | Key(key: ApiKey)              // an `ApiKey`
    | Tagged(fields: TaggedFields)  // a `TaggedFields` map

  /** The integer impls: the version is ignored. */
  function IntEncoder(kind: IntKind): Encoder<Value> {
    (x: Value, version: ApiVersion) =>
      Written(if x.Int? && kind.Contains(x.x) then Ok(EncodeInt(kind, x.x)) else Err(UnknownValue))
  }

  function IntDecoder(kind: IntKind): Decoder<Value> {
    (data: seq<byte>, version: ApiVersion) =>
      match DecodeInt(kind, data)
      case Ok(d) => Ok((Int(d.0), d.1))
      case Err(e) => Err(e)
  }

  /** Each integer decoder reads back what its encoder wrote. */
  lemma IntCodecInverse(kind: IntKind)
    ensures Inverse(IntEncoder(kind), IntDecoder(kind))
  {
    forall x: Value, version: ApiVersion, rest: seq<byte> | IntEncoder(kind)(x, version).failure.None?
      ensures IntDecoder(kind)(IntEncoder(kind)(x, version).bytes + rest, version) == Ok((x, rest))
    {
      DecodeIntRoundTrip(kind, x.x, rest);
    }
  }

  /** Some order that lists every tag of `m` once. */
  ghost function Enumerate(m: TaggedFields): (order: seq<u64>)
    ensures IsEnumeration(m, order)
    decreases |m|
  {
    if |m| == 0 then []
    else
      var k :| k in m;
      var rest := Enumerate(m - {k});
      EnumerationCons(m, k, rest);
      [k] + rest
  }

  lemma EnumerationCons(m: TaggedFields, k: u64, rest: seq<u64>)
    requires k in m && IsEnumeration(m - {k}, rest)
    ensures IsEnumeration(m, [k] + rest)
  {
    EnumerationConsCovers(m, k, rest);
    EnumerationConsDistinct(m, k, rest);
    assert (m - {k}).Keys == m.Keys - {k};
    assert |(m - {k}).Keys| == |m.Keys| - 1;
  }

  lemma EnumerationConsCovers(m: TaggedFields, k: u64, rest: seq<u64>)
    requires k in m && IsEnumeration(m - {k}, rest)
    ensures forall i :: 0 <= i < |[k] + rest| ==> ([k] + rest)[i] in m
    ensures forall key :: key in m ==> key in [k] + rest
  {
    var order := [k] + rest;
    forall key | key in m
      ensures key in order
    {
      if key != k {
        assert key in m - {k};
      }
    }
  }

  lemma EnumerationConsDistinct(m: TaggedFields, k: u64, rest: seq<u64>)
    requires k in m && IsEnumeration(m - {k}, rest)
    ensures forall i, j :: 0 <= i < j < |[k] + rest| ==> ([k] + rest)[i] != ([k] + rest)[j]
  {
    var order := [k] + rest;
    forall i, j | 0 <= i < j < |order|
      ensures order[i] != order[j]
    {
      if i > 0 {
        assert order[i] == rest[i - 1] && order[j] == rest[j - 1];
      } else {
        assert order[j] == rest[j - 1] && rest[j - 1] in m - {k};
      }
    }
  }

  /** The order a `HashMap` iterates in: unspecified, but it lists every tag exactly once. */
  type Iteration = f: TaggedFields -> seq<u64> | forall m :: IsEnumeration(m, f(m)) ghost witness Enumerate

  /** The `TaggedFields` impls, for a map that iterates in `iterate`'s order. */
  function TaggedEncoder(iterate: Iteration): Encoder<Value> {
    (x: Value, version: ApiVersion) =>
      Written(if x.Tagged? then Ok(EncodeTaggedFields(x.fields, iterate(x.fields))) else Err(UnknownValue))
  }

  const TaggedDecoder: Decoder<Value> :=
    (data: seq<byte>, version: ApiVersion) =>
      match DecodeTaggedFields(data)
      case Ok(d) => Ok((Tagged(d.0), d.1))
      case Err(e) => Err(e)

  /**
   * Unlike the integers, `TaggedFields` does not round-trip: whatever the
   * iteration order, the map {1: [7]} is written and cannot be read back.
   */
  lemma TaggedCodecNotInverse(iterate: Iteration)
    ensures !Inverse(TaggedEncoder(iterate), TaggedDecoder)
  {
    var m: TaggedFields := map[1 := [7]];
    var order := iterate(m);
    assert m.Keys == {1};
    assert order == [1];
    SingleEntryRoundTripFails();
    var bytes := TaggedEncoder(iterate)(Tagged(m), 0).bytes;
    assert bytes + [] == [1, 1, 1, 7];
    assert TaggedDecoder(bytes + [], 0).Err?;
  }

  /** `serialize_compact_string` as a hook; it is not given the version. */
  const CompactStringHook: Hook<Value> :=
    (x: Value) => Written(if x.Str? then EncodeCompactString(x.s) else Err(UnknownValue))
}
