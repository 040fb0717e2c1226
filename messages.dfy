/**
 * kafcars/src/protocol/messages/mod.rs: the version range and the associated
 * constants of requests and responses, and the codec of the tagged-fields
 * container, a `HashMap<u64, Vec<u8>>` written as a count followed by
 * (tag, length, payload) entries.
 *
 * The decoder is modelled as written. It reads one entry more than the count
 * announces, stores every payload behind as many zero bytes as the announced
 * length, and accepts a payload cut short by the end of the input. The lemmas
 * below pin down what it therefore makes of the encoder's output.
 */
module Messages {
  import opened Errors
  import opened Wire
  import opened Serializer
  import opened Deserializer

  /** The API keys the core refers to by name (the full `ApiKey` enum lives in api_key.rs, which is not part of this model). */
  datatype ApiKey = ApiVersions | OtherApiKey(code: int)

  /** `ApiVersionRange`: an inclusive pair of versions. Nothing enforces `min <= max`. */
  datatype ApiVersionRange = ApiVersionRange(min: ApiVersion, max: ApiVersion)

  /** The associated constants of `KafkaRequest`. */
  datatype RequestConstants = RequestConstants(
    apiKey: ApiKey,
    apiVersionRange: ApiVersionRange,
    taggedFieldsMinVersion: Option<ApiVersion>)

  /** The associated constant of `KafkaResponse`. */
  datatype ResponseConstants = ResponseConstants(taggedFieldsMinVersion: Option<ApiVersion>)

  // ---------------------------------------------------------------------------
  // Tagged fields.

  type TaggedFields = map<u64, seq<byte>>

  /** What a `HashMap<u64, Vec<u8>>` can hold: fewer than 2^64 entries, each payload shorter than 2^64 bytes. */
  predicate Representable(m: TaggedFields) {
    |m| < U64_LIMIT && forall k :: k in m ==> |m[k]| < U64_LIMIT
  }

  /** `order` lists every tag of `m` exactly once: one of the orders a HashMap may iterate in. */
  predicate IsEnumeration(m: TaggedFields, order: seq<u64>) {
    && |order| == |m|
    && (forall i :: 0 <= i < |order| ==> order[i] in m)
    && (forall k :: k in m ==> k in order)
    && (forall i, j :: 0 <= i < j < |order| ==> order[i] != order[j])
  }

  predicate Ascending(order: seq<u64>) {
    forall i, j :: 0 <= i < j < |order| ==> order[i] < order[j]
  }

  /** One entry: varint(tag), varint(payload length), the payload. */
  function EntryBytes(tag: u64, payload: seq<byte>): seq<byte> {
    EncodeVarInt(tag) + EncodeVarInt(|payload|) + payload
  }

  /** The entries of `m`, visited in `order`. */
  function EncodeEntries(m: TaggedFields, order: seq<u64>): seq<byte>
    requires forall i :: 0 <= i < |order| ==> order[i] in m
  {
    if |order| == 0 then []
    else
      var last := order[|order| - 1];
      EncodeEntries(m, order[..|order| - 1]) + EntryBytes(last, m[last])
  }

  /** `serialize_versioned` for TaggedFields, when the HashMap iterates in `order`. */
  function EncodeTaggedFields(m: TaggedFields, order: seq<u64>): seq<byte>
    requires IsEnumeration(m, order)
  {
    EncodeVarInt(|m|) + EncodeEntries(m, order)
  }

  /** What the decoder stores for a payload `p` that was read in full: |p| zero bytes, then `p`. */
  function Padded(p: seq<byte>): seq<byte> {
    Zeros(|p|) + p
  }

  /**
   * The decoding loop with `count` iterations to go, the previous tag `prev`
   * and the entries read so far. Each iteration reads a tag (rejecting one not
   * above `prev`), a size, then up to `size` payload bytes appended to `size`
   * zero bytes. The two halves of an iteration are DecodeEntryTag and
   * DecodeEntryPayload.
   */
  function DecodeEntries(data: seq<byte>, count: nat, prev: Option<u64>, fields: TaggedFields): (r: Decoded<TaggedFields>)
    ensures r.Ok? ==> |r.value.1| <= |data|
    ensures r.Err? ==> r.error.Io? || r.error.Malformed?
    decreases count, 2
  {
    if count == 0 then Ok((fields, data)) else DecodeEntryTag(data, count, prev, fields)
  }

  /** The first half of an iteration: the tag, which must lie above the previous one. */
  function DecodeEntryTag(data: seq<byte>, count: nat, prev: Option<u64>, fields: TaggedFields): (r: Decoded<TaggedFields>)
    requires count > 0
    ensures r.Ok? ==> |r.value.1| < |data|
    ensures r.Err? ==> r.error.Io? || r.error.Malformed?
    ensures DecodeVarInt(data).Err? ==> r == Err(DecodeVarInt(data).error)
    ensures DecodeVarInt(data).Ok? && prev.Some? && DecodeVarInt(data).value.0 <= prev.value ==>
              r == Err(Malformed(OutOfOrderTag(DecodeVarInt(data).value.0)))
    decreases count, 1
  {
    var t :- DecodeVarInt(data);
    var tag: u64 := t.0;
    if prev.Some? && tag <= prev.value then Err(Malformed(OutOfOrderTag(tag)))
    else DecodeEntryPayload(t.1, count, tag, fields)
  }

  /** The second half: the size, the payload behind its zero padding, and the duplicate check. */
  function DecodeEntryPayload(data: seq<byte>, count: nat, tag: u64, fields: TaggedFields): (r: Decoded<TaggedFields>)
    requires count > 0
    ensures r.Ok? ==> |r.value.1| < |data|
    ensures r.Err? ==> r.error.Io? || r.error.Malformed?
    ensures DecodeVarInt(data).Err? ==> r == Err(DecodeVarInt(data).error)
    ensures DecodeVarInt(data).Ok? && tag in fields ==> r == Err(Malformed(DuplicateTag(tag)))
    decreases count, 0
  {
    var s :- DecodeVarInt(data);
    var size := s.0;
    var k := Min(size, |s.1|);
    var content := Zeros(size) + s.1[..k];
    if tag in fields then Err(Malformed(DuplicateTag(tag)))
    else DecodeEntries(s.1[k..], count - 1, Some(tag), fields[tag := content])
  }

  /** `deserialize_versioned` for TaggedFields, as written: `num_fields + 1` iterations unless the count is 0. */
  function DecodeTaggedFields(data: seq<byte>): (r: Decoded<TaggedFields>)
    ensures r.Ok? ==> |r.value.1| < |data|
    ensures r.Err? ==> r.error.Io? || r.error.Malformed?
  {
    var n :- DecodeVarInt(data);
    if n.0 == 0 then Ok((map[], n.1)) else DecodeEntries(n.1, n.0 + 1, None, map[])
  }

  // ---------------------------------------------------------------------------
  // The encoder's layout.

  lemma {:induction false} EncodeEntriesCons(m: TaggedFields, order: seq<u64>)
    requires |order| > 0 && forall i :: 0 <= i < |order| ==> order[i] in m
    ensures EncodeEntries(m, order) == EntryBytes(order[0], m[order[0]]) + EncodeEntries(m, order[1..])
    decreases |order|
  {
    var n := |order|;
    if n > 1 {
      var init := order[..n - 1];
      var last := order[n - 1];
      EncodeEntriesCons(m, init);
      assert init[1..] == order[1..][..n - 2];
      assert order[1..][n - 2] == last;
      AppendAssoc(EntryBytes(order[0], m[order[0]]), EncodeEntries(m, init[1..]), EntryBytes(last, m[last]));
    } else {
      assert order[1..] == [];
    }
  }

  lemma {:induction false} EncodeEntriesAppend(m: TaggedFields, a: seq<u64>, b: seq<u64>)
    requires forall i :: 0 <= i < |a| ==> a[i] in m
    requires forall i :: 0 <= i < |b| ==> b[i] in m
    ensures EncodeEntries(m, a + b) == EncodeEntries(m, a) + EncodeEntries(m, b)
    decreases |b|
  {
    if |b| == 0 {
      assert a + b == a;
    } else {
      var b' := b[..|b| - 1];
      var last := b[|b| - 1];
      EncodeEntriesAppend(m, a, b');
      assert (a + b)[..|a + b| - 1] == a + b' && (a + b)[|a + b| - 1] == last;
      assert EncodeEntries(m, a + b) == EncodeEntries(m, a + b') + EntryBytes(last, m[last]);
      AppendAssoc(EncodeEntries(m, a), EncodeEntries(m, b'), EntryBytes(last, m[last]));
    }
  }

  /** The empty map is the single byte 0. */
  lemma EncodeEmptyTaggedFields()
    ensures EncodeTaggedFields(map[], []) == [0]
  {
    EncodeVarIntSmall(0);
  }

  // ---------------------------------------------------------------------------
  // What the decoder does.

  /** A count of 0 yields the empty map and consumes only the count. */
  lemma DecodeZeroCount(rest: seq<byte>)
    ensures DecodeTaggedFields([0] + rest) == Ok((map[], rest))
  {
    DecodeVarIntSingleByte(0, rest);
  }

  /** An error reading the count is the decoder's error. */
  lemma DecodeCountErrorPropagates(data: seq<byte>)
    requires DecodeVarInt(data).Err?
    ensures DecodeTaggedFields(data) == Err(DecodeVarInt(data).error)
  {
  }

  /** Tags and payloads the as-written varint encoder writes faithfully. */
  predicate Small(m: TaggedFields) {
    forall k :: k in m ==> k < 128 && |m[k]| < 128
  }

  /**
   * Reading one entry the encoder wrote (tag and length below 128) from `data`:
   * the loop goes on after it with one iteration less, `tag` as the previous
   * tag and the payload stored padded.
   */
  lemma DecodeOneEntry(
    data: seq<byte>, tag: u64, p: seq<byte>, rest: seq<byte>, count: nat, prev: Option<u64>, fields: TaggedFields,
    count': nat, prev': Option<u64>, fields': TaggedFields)
    requires data == EntryBytes(tag, p) + rest
    requires tag < 128 && |p| < 128 && count > 0
    requires prev.Some? ==> prev.value < tag
    requires tag !in fields
    requires count' == count - 1 && prev' == Some(tag) && fields' == fields[tag := Padded(p)]
    ensures DecodeEntries(data, count, prev, fields) == DecodeEntries(rest, count', prev', fields')
  {
    var afterTag := EncodeVarInt(|p|) + (p + rest);
    assert data == EncodeVarInt(tag) + afterTag;
    VarIntRoundTripBelow128(tag, afterTag);
    assert DecodeEntryTag(data, count, prev, fields) == DecodeEntryPayload(afterTag, count, tag, fields);
    VarIntRoundTripBelow128(|p|, p + rest);
    assert (p + rest)[..|p|] == p;
    assert (p + rest)[|p|..] == rest;
    assert DecodeEntryPayload(afterTag, count, tag, fields) == DecodeEntries(rest, count', prev', fields');
  }

  /** `fields` with the entries of `m` listed in `order` added front to back, each padded. */
  function InsertPadded(fields: TaggedFields, m: TaggedFields, order: seq<u64>): TaggedFields
    requires forall i :: 0 <= i < |order| ==> order[i] in m
    decreases |order|
  {
    if |order| == 0 then fields
    else InsertPadded(fields[order[0] := Padded(m[order[0]])], m, order[1..])
  }

  /** The last tag of `order`, or `prev` when there is none. */
  function LastTag(order: seq<u64>, prev: Option<u64>): (r: Option<u64>)
    ensures |order| > 0 ==> r == Some(order[|order| - 1])
    ensures |order| == 0 ==> r == prev
    decreases |order|
  {
    if |order| == 0 then prev else LastTag(order[1..], Some(order[0]))
  }

  /**
   * Reading a run of entries written in ascending tag order: each is stored
   * padded, and the loop goes on from the bytes after them with the last tag
   * as its previous tag.
   */
  lemma {:induction false} DecodeEncodedEntries(
    m: TaggedFields, order: seq<u64>, rest: seq<byte>, count: nat, prev: Option<u64>, fields: TaggedFields)
    requires forall i :: 0 <= i < |order| ==> order[i] in m
    requires Ascending(order) && Small(m) && |order| <= count
    requires prev.Some? ==> forall i :: 0 <= i < |order| ==> prev.value < order[i]
    requires forall i :: 0 <= i < |order| ==> order[i] !in fields
    ensures DecodeEntries(EncodeEntries(m, order) + rest, count, prev, fields)
         == DecodeEntries(rest, count - |order|, LastTag(order, prev), InsertPadded(fields, m, order))
    decreases |order|
  {
    if |order| == 0 {
      assert EncodeEntries(m, order) + rest == rest;
    } else {
      var tail := order[1..];
      var count': nat := count - 1;
      var prev' := Some(order[0]);
      var fields' := fields[order[0] := Padded(m[order[0]])];
      EncodedEntriesTail(m, order, prev, fields, tail, prev', fields');
      DecodeFirstEncodedEntry(m, order, rest, count, prev, fields, tail, count', prev', fields');
      DecodeEncodedEntries(m, tail, rest, count', prev', fields');
    }
  }

  /** The first step of DecodeEncodedEntries: one entry off the front of the run. */
  lemma DecodeFirstEncodedEntry(
    m: TaggedFields, order: seq<u64>, rest: seq<byte>, count: nat, prev: Option<u64>, fields: TaggedFields,
    tail: seq<u64>, count': nat, prev': Option<u64>, fields': TaggedFields)
    requires |order| > 0 && forall i :: 0 <= i < |order| ==> order[i] in m
    requires Small(m) && |order| <= count
    requires prev.Some? ==> prev.value < order[0]
    requires order[0] !in fields
    requires tail == order[1..] && count' == count - 1 && prev' == Some(order[0])
    requires fields' == fields[order[0] := Padded(m[order[0]])]
    ensures DecodeEntries(EncodeEntries(m, order) + rest, count, prev, fields)
         == DecodeEntries(EncodeEntries(m, tail) + rest, count', prev', fields')
  {
    EncodeEntriesCons(m, order);
    DecodeOneEntry(
      EncodeEntries(m, order) + rest, order[0], m[order[0]], EncodeEntries(m, tail) + rest, count, prev, fields,
      count', prev', fields');
  }

  /** DecodeEntries is a function of its arguments. */
  lemma DecodeEntriesArguments(
    data: seq<byte>, count: nat, count': nat, prev: Option<u64>, prev': Option<u64>, fields: TaggedFields, fields': TaggedFields)
    requires count == count' && prev == prev' && fields == fields'
    ensures DecodeEntries(data, count, prev, fields) == DecodeEntries(data, count', prev', fields')
  {
  }

  /** The requirements of DecodeEncodedEntries carry over from `order` to its tail. */
  lemma EncodedEntriesTail(
    m: TaggedFields, order: seq<u64>, prev: Option<u64>, fields: TaggedFields,
    tail: seq<u64>, prev': Option<u64>, fields': TaggedFields)
    requires |order| > 0 && forall i :: 0 <= i < |order| ==> order[i] in m
    requires Ascending(order)
    requires forall i :: 0 <= i < |order| ==> order[i] !in fields
    requires tail == order[1..] && prev' == Some(order[0])
    requires fields' == fields[order[0] := Padded(m[order[0]])]
    ensures forall i :: 0 <= i < |tail| ==> tail[i] in m
    ensures Ascending(tail)
    ensures prev'.Some? ==> forall i :: 0 <= i < |tail| ==> prev'.value < tail[i]
    ensures forall i :: 0 <= i < |tail| ==> tail[i] !in fields'
  {
  }

  /** Inserting the entries listed in `order` adds exactly those keys, each with its padded payload. */
  lemma {:induction false} InsertPaddedContents(fields: TaggedFields, m: TaggedFields, order: seq<u64>)
    requires forall i :: 0 <= i < |order| ==> order[i] in m
    ensures forall k :: k in InsertPadded(fields, m, order) <==> k in fields || k in order
    ensures forall k :: k in InsertPadded(fields, m, order) ==>
              InsertPadded(fields, m, order)[k] == if k in order then Padded(m[k]) else fields[k]
    decreases |order|
  {
    if |order| > 0 {
      InsertPaddedContents(fields[order[0] := Padded(m[order[0]])], m, order[1..]);
      assert forall k :: k in order <==> k == order[0] || k in order[1..] by {
        assert order == [order[0]] + order[1..];
      }
    }
  }

  /** The count of an encoded non-empty map reads back, and the loop starts on the entries with count + 1 iterations. */
  lemma DecodeTaggedFieldsCount(m: TaggedFields, order: seq<u64>, rest: seq<byte>, count: nat)
    requires IsEnumeration(m, order) && 1 <= |m| < 128 && count == |m| + 1
    ensures DecodeTaggedFields(EncodeTaggedFields(m, order) + rest)
         == DecodeEntries(EncodeEntries(m, order) + rest, count, None, map[])
  {
    AppendAssoc(EncodeVarInt(|m|), EncodeEntries(m, order), rest);
    VarIntRoundTripBelow128(|m|, EncodeEntries(m, order) + rest);
  }

  /** Every entry of `m`, padded. */
  function PaddedMap(m: TaggedFields): TaggedFields {
    map k | k in m :: Padded(m[k])
  }

  lemma InsertPaddedAll(m: TaggedFields, order: seq<u64>)
    requires IsEnumeration(m, order)
    ensures InsertPadded(map[], m, order) == PaddedMap(m)
  {
    InsertPaddedContents(map[], m, order);
  }

  /**
   * What the decoder makes of an encoded non-empty map whose entries came out
   * in ascending tag order: it reads all of them, stores each payload behind
   * that many zero bytes, and then goes on to read one entry more from
   * whatever follows the encoding.
   */
  lemma DecodeEncodedTaggedFields(m: TaggedFields, order: seq<u64>, rest: seq<byte>)
    requires IsEnumeration(m, order) && Ascending(order) && Small(m)
    requires 1 <= |m| < 128
    ensures DecodeTaggedFields(EncodeTaggedFields(m, order) + rest)
         == DecodeEntries(rest, 1, Some(order[|order| - 1]), PaddedMap(m))
  {
    var count: nat := |m| + 1;
    DecodeTaggedFieldsCount(m, order, rest, count);
    DecodeEncodedEntries(m, order, rest, count, None, map[]);
    InsertPaddedAll(m, order);
    DecodeEntriesArguments(
      rest, count - |order|, 1, LastTag(order, None), Some(order[|order| - 1]), InsertPadded(map[], m, order), PaddedMap(m));
  }

  /**
   * Hence the encoding of a non-empty map whose tags and payload lengths are
   * below 128, written in ascending tag order, never decodes on its own: the
   * extra entry runs into the end of the input.
   */
  lemma EncodedTaggedFieldsDoNotDecode(m: TaggedFields, order: seq<u64>)
    requires IsEnumeration(m, order) && Ascending(order) && Small(m)
    requires 1 <= |m| < 128
    ensures DecodeTaggedFields(EncodeTaggedFields(m, order)) == Err(Io(UnexpectedEof))
  {
    DecodeEncodedTaggedFields(m, order, []);
    assert EncodeTaggedFields(m, order) + [] == EncodeTaggedFields(m, order);
  }

  /**
   * ... and when a further entry follows, it is taken into the map: a count of
   * N yields N + 1 entries.
   */
  lemma DecodeReadsOneEntryMore(m: TaggedFields, order: seq<u64>, tag: u64, p: seq<byte>, rest: seq<byte>)
    requires IsEnumeration(m, order) && Ascending(order) && Small(m)
    requires 1 <= |m| < 128
    requires tag < 128 && |p| < 128 && order[|order| - 1] < tag
    ensures tag !in m
    ensures DecodeTaggedFields(EncodeTaggedFields(m, order) + EntryBytes(tag, p) + rest)
         == Ok((PaddedMap(m)[tag := Padded(p)], rest))
    ensures |PaddedMap(m)[tag := Padded(p)]| == |m| + 1
  {
    var e := EncodeTaggedFields(m, order);
    assert e + EntryBytes(tag, p) + rest == e + (EntryBytes(tag, p) + rest);
    DecodeEncodedTaggedFields(m, order, EntryBytes(tag, p) + rest);
    DecodeOneEntry(EntryBytes(tag, p) + rest, tag, p, rest, 1, Some(order[|order| - 1]), PaddedMap(m), 0, Some(tag), PaddedMap(m)[tag := Padded(p)]);
    assert PaddedMap(m).Keys == m.Keys;
  }

  /** The empty map is the one map that survives encoding and decoding. */
  lemma EmptyTaggedFieldsRoundTrip(rest: seq<byte>)
    ensures DecodeTaggedFields(EncodeTaggedFields(map[], []) + rest) == Ok((map[], rest))
  {
    EncodeEmptyTaggedFields();
    DecodeZeroCount(rest);
  }

  /** {1: [7]} is written as [1, 1, 1, 7] and reading that back fails. */
  lemma SingleEntryRoundTripFails()
    ensures EncodeTaggedFields(map[1 := [7]], [1]) == [1, 1, 1, 7]
    ensures DecodeTaggedFields([1, 1, 1, 7]) == Err(Io(UnexpectedEof))
  {
    var m: TaggedFields := map[1 := [7]];
    assert m.Keys == {1};
    EncodeVarIntSmall(1);
    assert EncodeEntries(m, [1]) == EncodeEntries(m, []) + EntryBytes(1, [7]);
    EncodedTaggedFieldsDoNotDecode(m, [1]);
  }

  /**
   * When the HashMap happens to iterate a larger tag before a smaller one,
   * the decoder stops at the smaller one with Malformed.
   */
  lemma DecodeRejectsDescendingOrder(m: TaggedFields, order: seq<u64>, rest: seq<byte>, i: nat)
    requires IsEnumeration(m, order) && Small(m) && |m| < 128
    requires i + 1 < |order| && Ascending(order[..i + 1]) && order[i + 1] < order[i]
    ensures DecodeTaggedFields(EncodeTaggedFields(m, order) + rest) == Err(Malformed(OutOfOrderTag(order[i + 1])))
  {
    var front := order[..i + 1];
    var t := order[i + 1];
    var tail := EncodeEntries(m, order[i + 2..]) + rest;
    var after := EntryBytes(t, m[t]) + tail;
    EncodeEntriesSplit(m, order, rest, i);
    var count: nat := |m| + 1;
    DecodeTaggedFieldsCount(m, order, rest, count);
    AscendingFront(m, order, i, front);
    DecodeEncodedEntries(m, front, after, count, None, map[]);
    var left: nat := count - |front|;
    DecodeEntriesRejectsTag(after, t, m[t], tail, left, LastTag(front, None), InsertPadded(map[], m, front));
  }

  /** The encoding of `order`, cut before the entry at index i + 1. */
  lemma EncodeEntriesSplit(m: TaggedFields, order: seq<u64>, rest: seq<byte>, i: nat)
    requires forall j :: 0 <= j < |order| ==> order[j] in m
    requires i + 1 < |order|
    ensures EncodeEntries(m, order) + rest
         == EncodeEntries(m, order[..i + 1]) + (EntryBytes(order[i + 1], m[order[i + 1]]) + (EncodeEntries(m, order[i + 2..]) + rest))
  {
    var front := order[..i + 1];
    var back := order[i + 1..];
    assert order == front + back;
    assert back[1..] == order[i + 2..];
    EncodeEntriesAppend(m, front, back);
    AppendAssoc(EncodeEntries(m, front), EncodeEntries(m, back), rest);
    EncodeEntriesCons(m, back);
    AppendAssoc(EntryBytes(order[i + 1], m[order[i + 1]]), EncodeEntries(m, back[1..]), rest);
  }

  /** The ascending prefix up to index i can be read as a run; its last tag is order[i]. */
  lemma AscendingFront(m: TaggedFields, order: seq<u64>, i: nat, front: seq<u64>)
    requires IsEnumeration(m, order) && i < |order| && front == order[..i + 1]
    ensures forall j :: 0 <= j < |front| ==> front[j] in m
    ensures |front| <= |m| + 1
    ensures LastTag(front, None) == Some(order[i])
  {
  }

  /** An entry whose tag does not lie above the previous one stops the loop with Malformed. */
  lemma DecodeEntriesRejectsTag(
    data: seq<byte>, t: u64, p: seq<byte>, tail: seq<byte>, count: nat, prev: Option<u64>, fields: TaggedFields)
    requires data == EntryBytes(t, p) + tail && t < 128
    requires count > 0 && prev.Some? && t <= prev.value
    ensures DecodeEntries(data, count, prev, fields) == Err(Malformed(OutOfOrderTag(t)))
  {
    var afterTag := EncodeVarInt(|p|) + p + tail;
    assert data == EncodeVarInt(t) + afterTag;
    VarIntRoundTripBelow128(t, afterTag);
  }

  /** Two entries whose tags repeat or go down are rejected, whatever their payloads. */
  lemma RepeatedTagRejected()
    ensures DecodeTaggedFields([1, 3, 0, 3, 0]) == Err(Malformed(OutOfOrderTag(3)))
    ensures DecodeTaggedFields([1, 5, 0, 2, 0]) == Err(Malformed(OutOfOrderTag(2)))
  {
    DecodeVarIntSingleByte(1, [3, 0, 3, 0]);
    DecodeVarIntSingleByte(3, [0, 3, 0]);
    DecodeVarIntSingleByte(0, [3, 0]);
    DecodeVarIntSingleByte(3, [0]);
    DecodeVarIntSingleByte(1, [5, 0, 2, 0]);
    DecodeVarIntSingleByte(5, [0, 2, 0]);
    DecodeVarIntSingleByte(0, [2, 0]);
    DecodeVarIntSingleByte(2, [0]);
  }

  /**
   * For any input, a size larger than what is left of the frame is not an
   * error: the last entry is stored as `size` zero bytes followed by all the
   * remaining bytes, and the whole input is consumed.
   */
  lemma TruncatedPayloadAccepted(data: seq<byte>, tag: u64, fields: TaggedFields, size: u64, after: seq<byte>)
    requires tag !in fields
    requires DecodeVarInt(data) == Ok((size, after)) && |after| < size
    ensures DecodeEntryPayload(data, 1, tag, fields) == Ok((fields[tag := Zeros(size) + after], []))
  {
    assert after[..|after|] == after;
  }

  /**
   * A payload cut short by the end of the input is not an error: with a count
   * of 1 (two entries), {2: [], 5: three bytes of which one is present} is
   * stored as {2: [], 5: [0, 0, 0, 9]}.
   */
  lemma ShortPayloadAccepted()
    ensures DecodeTaggedFields([1, 2, 0, 5, 3, 9]) == Ok((map[2 := [], 5 := [0, 0, 0, 9]], []))
  {
    DecodeVarIntSingleByte(1, [2, 0, 5, 3, 9]);
    DecodeVarIntSingleByte(2, [0, 5, 3, 9]);
    DecodeVarIntSingleByte(0, [5, 3, 9]);
    DecodeVarIntSingleByte(5, [3, 9]);
    DecodeVarIntSingleByte(3, [9]);
    var first: TaggedFields := map[2 := Zeros(0) + []];
    var second: TaggedFields := first[5 := Zeros(3) + [9]];
    assert DecodeTaggedFields([1, 2, 0, 5, 3, 9]) == DecodeEntries([2, 0, 5, 3, 9], 2, None, map[]);
    assert DecodeEntries([2, 0, 5, 3, 9], 2, None, map[]) == DecodeEntryPayload([0, 5, 3, 9], 2, 2, map[]);
    assert DecodeEntryPayload([0, 5, 3, 9], 2, 2, map[]) == DecodeEntries([5, 3, 9], 1, Some(2), first);
    assert DecodeEntries([5, 3, 9], 1, Some(2), first) == DecodeEntryPayload([3, 9], 1, 5, first);
    assert [9][..1] == [9] && [9][1..] == [];
    assert DecodeEntryPayload([3, 9], 1, 5, first) == DecodeEntries([], 0, Some(5), second);
    assert Zeros(0) + [] == [] && Zeros(3) + [9] == [0, 0, 0, 9];
  }

  /** At least the first half of `v` is zero bytes. */
  predicate ZeroPrefixed(v: seq<byte>) {
    forall i :: 0 <= i < (|v| + 1) / 2 ==> v[i] == 0
  }

  lemma {:induction false} DecodeEntriesZeroPrefixed(data: seq<byte>, count: nat, prev: Option<u64>, fields: TaggedFields)
    requires forall k :: k in fields ==> ZeroPrefixed(fields[k])
    ensures DecodeEntries(data, count, prev, fields).Ok? ==>
      forall k :: k in DecodeEntries(data, count, prev, fields).value.0 ==> ZeroPrefixed(DecodeEntries(data, count, prev, fields).value.0[k])
    decreases count
  {
    if count > 0 && DecodeVarInt(data).Ok? {
      var t := DecodeVarInt(data).value;
      var tag: u64 := t.0;
      if !(prev.Some? && tag <= prev.value) {
        assert DecodeEntries(data, count, prev, fields) == DecodeEntryPayload(t.1, count, tag, fields);
        if DecodeVarInt(t.1).Ok? && tag !in fields {
          var s := DecodeVarInt(t.1).value;
          var k := Min(s.0, |s.1|);
          var content := Zeros(s.0) + s.1[..k];
          assert ZeroPrefixed(content);
          DecodeEntriesZeroPrefixed(s.1[k..], count - 1, Some(tag), fields[tag := content]);
        }
      }
    }
  }

  /**
   * Every payload the decoder returns starts with at least as many zero bytes
   * as it has other bytes: the pre-filled `size` zeros come first.
   */
  lemma DecodedPayloadsZeroPrefixed(data: seq<byte>)
    ensures DecodeTaggedFields(data).Ok? ==>
      forall k :: k in DecodeTaggedFields(data).value.0 ==> ZeroPrefixed(DecodeTaggedFields(data).value.0[k])
  {
    if DecodeVarInt(data).Ok? && DecodeVarInt(data).value.0 != 0 {
      DecodeEntriesZeroPrefixed(DecodeVarInt(data).value.1, DecodeVarInt(data).value.0 + 1, None, map[]);
    }
  }

  lemma {:induction false} DecodeEntriesNeverDuplicate(data: seq<byte>, count: nat, prev: Option<u64>, fields: TaggedFields)
    requires forall k :: k in fields ==> prev.Some? && k <= prev.value
    ensures var r := DecodeEntries(data, count, prev, fields);
      !(r.Err? && r.error.Malformed? && r.error.reason.DuplicateTag?)
    decreases count
  {
    if count > 0 && DecodeVarInt(data).Ok? {
      var t := DecodeVarInt(data).value;
      var tag: u64 := t.0;
      if !(prev.Some? && tag <= prev.value) {
        assert tag !in fields;
        assert DecodeEntries(data, count, prev, fields) == DecodeEntryPayload(t.1, count, tag, fields);
        if DecodeVarInt(t.1).Ok? {
          var s := DecodeVarInt(t.1).value;
          var k := Min(s.0, |s.1|);
          var content := Zeros(s.0) + s.1[..k];
          DecodeEntriesNeverDuplicate(s.1[k..], count - 1, Some(tag), fields[tag := content]);
        }
      }
    }
  }

  /** The "already exists" branch is dead: the ordering check has rejected every repeated tag before it. */
  lemma DecodeNeverReportsDuplicate(data: seq<byte>)
    ensures var r := DecodeTaggedFields(data);
      !(r.Err? && r.error.Malformed? && r.error.reason.DuplicateTag?)
  {
    if DecodeVarInt(data).Ok? && DecodeVarInt(data).value.0 != 0 {
      DecodeEntriesNeverDuplicate(DecodeVarInt(data).value.1, DecodeVarInt(data).value.0 + 1, None, map[]);
    }
  }

  // ---------------------------------------------------------------------------
  // The impls, over a Writer and a Reader.

  /** Appending one more tag to the order appends its entry to the bytes. */
  lemma EncodeEntriesSnoc(m: TaggedFields, order: seq<u64>, tag: u64)
    requires tag in m && forall i :: 0 <= i < |order| ==> order[i] in m
    ensures forall i :: 0 <= i < |order + [tag]| ==> (order + [tag])[i] in m
    ensures EncodeEntries(m, order + [tag]) == EncodeEntries(m, order) + EntryBytes(tag, m[tag])
  {
    assert (order + [tag])[..|order|] == order;
  }

  /** The body of the writing loop: one entry appended to the writer. */
  method SerializeEntry(tag: u64, payload: seq<byte>, w: Writer)
    requires |payload| < U64_LIMIT
    modifies w
    ensures w.bytes == old(w.bytes) + EntryBytes(tag, payload)
  {
    SerializeUnsignedVarInt(tag, w);
    SerializeUnsignedVarInt(|payload|, w);
    w.WriteAll(payload);
  }

  /** Part way through the writing loop: `order` lists the tags written so far, `pending` the rest. */
  ghost predicate Visited(m: TaggedFields, order: seq<u64>, pending: set<u64>) {
    && pending <= m.Keys
    && (forall i :: 0 <= i < |order| ==> order[i] in m && order[i] !in pending)
    && (forall k :: k in m ==> k in pending || k in order)
    && (forall i, j :: 0 <= i < j < |order| ==> order[i] != order[j])
    && |order| + |pending| == |m.Keys|
  }

  lemma VisitedStep(m: TaggedFields, order: seq<u64>, pending: set<u64>, tag: u64)
    requires Visited(m, order, pending) && tag in pending
    ensures Visited(m, order + [tag], pending - {tag})
  {
  }

  lemma VisitedAll(m: TaggedFields, order: seq<u64>)
    requires Visited(m, order, {})
    ensures IsEnumeration(m, order)
  {
    assert |m.Keys| == |m|;
  }

  /** The writing loop's state: the tags in `order` are written, in that order, after `start`. */
  ghost predicate Writing(m: TaggedFields, order: seq<u64>, pending: set<u64>, start: seq<byte>, bytes: seq<byte>) {
    && Visited(m, order, pending)
    && (forall i :: 0 <= i < |order| ==> order[i] in m)
    && bytes == start + EncodeEntries(m, order)
  }

  /** Writing the entry of one more pending tag keeps the loop's state. */
  lemma WritingStep(m: TaggedFields, order: seq<u64>, pending: set<u64>, start: seq<byte>, bytes: seq<byte>, tag: u64)
    requires Representable(m) && Writing(m, order, pending, start, bytes) && tag in pending
    ensures tag in m && |m[tag]| < U64_LIMIT
    ensures Writing(m, order + [tag], pending - {tag}, start, bytes + EntryBytes(tag, m[tag]))
  {
    EncodeEntriesSnoc(m, order, tag);
    VisitedStep(m, order, pending, tag);
  }

  lemma WritingDone(m: TaggedFields, order: seq<u64>, start: seq<byte>, bytes: seq<byte>)
    requires Writing(m, order, {}, start, bytes)
    ensures IsEnumeration(m, order)
    ensures bytes == start + EncodeEntries(m, order)
  {
    VisitedAll(m, order);
  }

  /**
   * Writes the count and then every entry. The iteration order of a HashMap is
   * unspecified; here the next tag is picked arbitrarily, and the order taken
   * is returned for the contract.
   */
  method SerializeTaggedFields(m: TaggedFields, w: Writer, version: ApiVersion) returns (ghost order: seq<u64>)
    requires Representable(m)
    modifies w
    ensures IsEnumeration(m, order)
    ensures w.bytes == old(w.bytes) + EncodeTaggedFields(m, order)
  {
    SerializeUnsignedVarInt(|m|, w);
    ghost var start := w.bytes;
    var pending := m.Keys;
    order := [];
    while pending != {}
      invariant Writing(m, order, pending, start, w.bytes)
      decreases |pending|
    {
      var tag :| tag in pending;
      WritingStep(m, order, pending, start, w.bytes, tag);
      SerializeEntry(tag, m[tag], w);
      pending := pending - {tag};
      order := order + [tag];
    }
    WritingDone(m, order, start, w.bytes);
    AppendAssoc(old(w.bytes), EncodeVarInt(|m|), EncodeEntries(m, order));
  }

  method DeserializeTaggedFields(r: Reader, version: ApiVersion) returns (res: Result<TaggedFields, SerializationError>)
    modifies r
    ensures Follows(res, r.remaining, DecodeTaggedFields(old(r.remaining)))
  {
    var n :- DeserializeUnsignedVarInt(r);
    if n == 0 {
      return Ok(map[]);
    }
    var fields: TaggedFields := map[];
    var prev: Option<u64> := None;
    for i := 0 to n + 1
      invariant DecodeEntries(r.remaining, n + 1 - i, prev, fields) == DecodeTaggedFields(old(r.remaining))
    {
      ghost var left: nat := n + 1 - i;
      ghost var atTag := r.remaining;
      ghost var before := fields;
      assert DecodeEntries(atTag, left, prev, fields) == DecodeEntryTag(atTag, left, prev, fields);
      var tag :- DeserializeUnsignedVarInt(r);
      if prev.Some? && tag <= prev.value {
        return Err(Malformed(OutOfOrderTag(tag)));
      }
      ghost var atSize := r.remaining;
      assert DecodeEntryTag(atTag, left, prev, fields) == DecodeEntryPayload(atSize, left, tag, fields);
      prev := Some(tag);
      var size :- DeserializeUnsignedVarInt(r);
      var chunk := r.ReadUpTo(size);
      var content := Zeros(size) + chunk;
      if tag in fields {
        return Err(Malformed(DuplicateTag(tag)));
      }
      fields := fields[tag := content];
      assert DecodeEntryPayload(atSize, left, tag, before) == DecodeEntries(r.remaining, left - 1, prev, fields);
    }
    res := Ok(fields);
  }
}
