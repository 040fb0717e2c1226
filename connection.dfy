/**
 * kafcars/src/client/stream.rs: one connection to a broker.
 *
 * Version negotiation (`match_versions` and the first part of
 * `send_request_with_version_ranges`) is pure. The connection itself keeps a
 * correlation-id counter and the table of requests waiting for their
 * response; `read_with_raw_response_message` handles one response frame
 * against that table. The oneshot channel a waiter listens on is modelled by
 * the outcome delivered to it, recorded in `delivered`.
 */
module Connection {
  import opened Errors
  import opened Wire
  import opened Serializer
  import opened Deserializer
  import opened Messages
  import opened Header

  // ---------------------------------------------------------------------------
  // Version negotiation.

  /** A range that contains at least one version. */
  predicate WellFormed(range: ApiVersionRange) {
    range.min <= range.max
  }

  predicate InRange(v: int, range: ApiVersionRange) {
    range.min <= v <= range.max
  }

  /**
   * `match_versions`: when the two ranges overlap, the higher of their common
   * versions, which is the lower of the two maxima.
   */
  function MatchVersions(range0: ApiVersionRange, range1: ApiVersionRange): (r: Option<ApiVersion>)
    ensures r.Some? <==> range0.min <= range1.max && range1.min <= range0.max
    ensures r.Some? ==> r.value <= range0.max && r.value <= range1.max
    ensures r.Some? ==> r.value == range0.max || r.value == range1.max
  {
    if range0.min <= range1.max && range1.min <= range0.max then Some(Min(range0.max, range1.max)) else None
  }

  /** For ranges that are not inverted, a match is a version both sides support, and no common version is higher. */
  lemma MatchVersionsIsGreatestCommon(range0: ApiVersionRange, range1: ApiVersionRange)
    requires WellFormed(range0) && WellFormed(range1)
    ensures MatchVersions(range0, range1).Some? ==>
              && InRange(MatchVersions(range0, range1).value, range0)
              && InRange(MatchVersions(range0, range1).value, range1)
    ensures forall v :: InRange(v, range0) && InRange(v, range1) ==>
              MatchVersions(range0, range1).Some? && v <= MatchVersions(range0, range1).value
  {
  }

  /** For ranges that are not inverted, a match exists exactly when some version lies in both. */
  lemma MatchVersionsExactlyWhenCommon(range0: ApiVersionRange, range1: ApiVersionRange)
    requires WellFormed(range0) && WellFormed(range1)
    ensures MatchVersions(range0, range1).Some? <==> exists v :: InRange(v, range0) && InRange(v, range1)
  {
    if MatchVersions(range0, range1).Some? {
      var v := MatchVersions(range0, range1).value;
      assert InRange(v, range0) && InRange(v, range1);
    }
  }

  /** It does not matter which side is the server's. */
  lemma MatchVersionsSymmetric(range0: ApiVersionRange, range1: ApiVersionRange)
    ensures MatchVersions(range0, range1) == MatchVersions(range1, range0)
  {
  }

  /** An inverted range is not rejected: (5, 2) against (0, 10) yields 2, which (5, 2) does not contain. */
  lemma InvertedRangeMatchesOutside()
    ensures MatchVersions(ApiVersionRange(5, 2), ApiVersionRange(0, 10)) == Some(2)
    ensures !InRange(2, ApiVersionRange(5, 2))
  {
  }

  datatype RequestError =
    | ReadError(source: SerializationError)  // "Could not read message"
    | NoVersionMatch(apiKey: ApiKey)         // "Could not find a version match for api key"

  /**
   * The version of one exchange: the server's advertised range for the API
   * key, matched against the request type's own range.
   */
  function NegotiateVersion(table: map<ApiKey, ApiVersionRange>, key: ApiKey, range: ApiVersionRange): (r: Result<ApiVersion, RequestError>)
    ensures r.Err? <==> key !in table || MatchVersions(table[key], range).None?
    ensures r.Err? ==> r.error == NoVersionMatch(key)
    ensures r.Ok? ==> r.value <= range.max && r.value <= table[key].max
    ensures r.Ok? ==> key in table && MatchVersions(table[key], range) == Some(r.value)
  {
    if key !in table then Err(NoVersionMatch(key))
    else
      match MatchVersions(table[key], range)
      case Some(v) => Ok(v)
      case None => Err(NoVersionMatch(key))
  }

  /**
   * When the server's range and the request's range are not inverted, the
   * negotiated version is one both sides support and no common version is
   * higher; negotiation fails only when the key is unknown or no version is
   * shared.
   */
  lemma NegotiatedVersionIsGreatestCommon(table: map<ApiKey, ApiVersionRange>, key: ApiKey, range: ApiVersionRange)
    requires key in table ==> WellFormed(table[key])
    requires WellFormed(range)
    ensures NegotiateVersion(table, key, range).Ok? ==>
              InRange(NegotiateVersion(table, key, range).value, table[key])
              && InRange(NegotiateVersion(table, key, range).value, range)
    ensures key in table ==> forall v :: InRange(v, table[key]) && InRange(v, range) ==>
              NegotiateVersion(table, key, range).Ok? && v <= NegotiateVersion(table, key, range).value
  {
    if key in table {
      MatchVersionsIsGreatestCommon(table[key], range);
    }
  }

  /** Whether one side of an exchange carries tagged fields at `version`. */
  predicate UseTaggedFields(threshold: Option<ApiVersion>, version: ApiVersion) {
    threshold.Some? && version >= threshold.value
  }

  /** Tagged fields, once used, stay in use at every later version; a type without a threshold never uses them. */
  lemma UseTaggedFieldsMonotone(threshold: Option<ApiVersion>, v: ApiVersion, w: ApiVersion)
    requires v <= w
    ensures UseTaggedFields(threshold, v) ==> UseTaggedFields(threshold, w)
    ensures threshold.None? ==> !UseTaggedFields(threshold, w)
  {
  }

  /** What `send_request_with_version_ranges` settles before it builds the header. */
  datatype Exchange = Exchange(version: ApiVersion, taggedInRequest: bool, taggedInResponse: bool)

  function PlanExchange(table: map<ApiKey, ApiVersionRange>, request: RequestConstants, response: ResponseConstants): (r: Result<Exchange, RequestError>)
    ensures r.Err? <==> NegotiateVersion(table, request.apiKey, request.apiVersionRange).Err?
    ensures r.Err? ==> r.error == NoVersionMatch(request.apiKey)
    ensures r.Ok? ==> r.value.version == NegotiateVersion(table, request.apiKey, request.apiVersionRange).value
    ensures r.Ok? ==> (r.value.taggedInRequest <==> UseTaggedFields(request.taggedFieldsMinVersion, r.value.version))
    ensures r.Ok? ==> (r.value.taggedInResponse <==> UseTaggedFields(response.taggedFieldsMinVersion, r.value.version))
  {
    var version :- NegotiateVersion(table, request.apiKey, request.apiVersionRange);
    Ok(Exchange(
      version,
      UseTaggedFields(request.taggedFieldsMinVersion, version),
      UseTaggedFields(response.taggedFieldsMinVersion, version)))
  }

  /** The two flags are computed independently: one exchange may send tagged fields and expect none back. */
  lemma RequestAndResponseMayDisagree()
    ensures PlanExchange(map[ApiVersions := ApiVersionRange(0, 4)],
                         RequestConstants(ApiVersions, ApiVersionRange(0, 4), Some(3)),
                         ResponseConstants(None))
         == Ok(Exchange(4, true, false))
  {
  }

  /**
   * A request type without a tagged-field threshold, such as the derived
   * `ApiVersionsRequest`, never sends tagged fields, whatever version is agreed.
   */
  lemma NoThresholdNoTaggedRequest(table: map<ApiKey, ApiVersionRange>, request: RequestConstants, response: ResponseConstants)
    requires request.taggedFieldsMinVersion.None?
    requires PlanExchange(table, request, response).Ok?
    ensures !PlanExchange(table, request, response).value.taggedInRequest
  {
  }

  // ---------------------------------------------------------------------------
  // Correlation ids: an `AtomicI32` advanced by `fetch_add(1)`, which wraps.

  const I32_MODULUS: int := 0x1_0000_0000

  /** The i32 that `x` wraps to. */
  function WrapI32(x: int): (r: Int32)
    ensures (r - x) % I32_MODULUS == 0
  {
    (x + 0x8000_0000) % I32_MODULUS - 0x8000_0000
  }

  /** No wrapping happens inside the i32 range, and one past the largest i32 is the smallest. */
  lemma WrapI32Edges(x: int)
    ensures -0x8000_0000 <= x < 0x8000_0000 ==> WrapI32(x) == x
    ensures WrapI32(0x7fff_ffff + 1) == -0x8000_0000
  {
  }

  /** The ids handed out from one starting value do not repeat within 2^32 requests, and then they do. */
  lemma CorrelationIdsDistinct(start: Int32, i: nat, j: nat)
    requires i < j < I32_MODULUS
    ensures WrapI32(start + i) != WrapI32(start + j)
    ensures WrapI32(start + I32_MODULUS) == start
  {
    DifferenceMultiple(WrapI32(start + i) - (start + i), WrapI32(start + j) - (start + j));
    WrapI32Edges(start);
  }

  /** Two multiples of 2^32 differ by a multiple of 2^32, so never by something strictly between 0 and 2^32. */
  lemma DifferenceMultiple(x: int, y: int)
    requires x % I32_MODULUS == 0 && y % I32_MODULUS == 0
    ensures !(0 < x - y < I32_MODULUS)
  {
    var p := x / I32_MODULUS;
    var q := y / I32_MODULUS;
    assert x == p * I32_MODULUS && y == q * I32_MODULUS;
    assert x - y == (p - q) * I32_MODULUS;
    if p - q >= 1 {
      assert (p - q) * I32_MODULUS >= I32_MODULUS;
    } else {
      assert (p - q) * I32_MODULUS <= 0;
    }
  }

  // ---------------------------------------------------------------------------
  // Handling one response frame.

  /** A waiter's channel, by identity. */
  type ChannelId = nat

  /** `ActiveRequest`: where the response goes, and whether tagged fields follow its header. */
  datatype ActiveRequest = ActiveRequest(channel: ChannelId, useTaggedFieldsInResponse: bool)

  /**
   * `Response`: the header and the bytes of the frame after it. The source
   * hands over a cursor over the whole frame, positioned past the header and
   * any tagged-field container; only the unread bytes are kept here.
   */
  datatype Response = Response(header: ResponseHeader, payload: seq<byte>)

  /** One value sent on a waiter's channel. */
  datatype Delivery = Delivery(channel: ChannelId, outcome: Result<Response, RequestError>)

  datatype ResponseError =
    | InvalidHeader(source: SerializationError)  // "Cannot read message header, ignoring message"
    | UnknownRequest(correlationId: Int32)        // "Got a response for an unknown request"

  /** What handling one frame comes to: the result, the table after it, the id served and the value sent. */
  datatype Handled = Handled(
    result: Result<(), ResponseError>,
    pending: map<Int32, ActiveRequest>,
    served: Option<Int32>,
    delivery: Option<Delivery>)

  /**
   * `read_with_raw_response_message`: the header is always read at version 0
   * (the correlation id only); the entry for its id is taken out of the
   * table; the tagged fields are read only when that request expects them;
   * the waiter then receives the header and the rest of the frame, or the
   * error of the tagged-field read.
   */
  function HandleFrame(pending: map<Int32, ActiveRequest>, frame: seq<byte>): (h: Handled)
    ensures h.result.Err? ==> h.pending == pending && h.served.None? && h.delivery.None?
    ensures h.result.Ok? ==> h.served.Some? && h.delivery.Some?
    ensures h.served.Some? ==>
              && h.served.value in pending
              && h.pending == pending - {h.served.value}
              && h.delivery.value.channel == pending[h.served.value].channel
  {
    match ReadResponseHeader(frame, 0)
    case Err(e) => Handled(Err(InvalidHeader(e)), pending, None, None)
    case Ok((header, rest)) =>
      var id := header.correlationId;
      if id !in pending then Handled(Err(UnknownRequest(id)), pending, None, None)
      else
        var active := pending[id];
        var remaining := pending - {id};
        if !active.useTaggedFieldsInResponse then
          Handled(Ok(()), remaining, Some(id), Some(Delivery(active.channel, Ok(Response(header, rest)))))
        else
          match DecodeTaggedFields(rest)
          case Err(e) => Handled(Ok(()), remaining, Some(id), Some(Delivery(active.channel, Err(ReadError(e)))))
          case Ok((fields, after)) =>
            Handled(Ok(()), remaining, Some(id),
                    Some(Delivery(active.channel, Ok(Response(header.(taggedFields := Some(fields)), after)))))
  }

  /** A frame too short for a correlation id is refused as an invalid header. */
  lemma ShortFrameInvalidHeader(pending: map<Int32, ActiveRequest>, frame: seq<byte>)
    requires |frame| < 4
    ensures HandleFrame(pending, frame) == Handled(Err(InvalidHeader(Io(UnexpectedEof))), pending, None, None)
  {
    ResponseHeaderTooShort(frame, 0);
  }

  /** A frame for an id nobody waits for is refused, and the table is left as it was. */
  lemma UnknownIdRefused(pending: map<Int32, ActiveRequest>, id: Int32, rest: seq<byte>)
    requires id !in pending
    ensures HandleFrame(pending, EncodeInt(I32, id) + rest) == Handled(Err(UnknownRequest(id)), pending, None, None)
  {
    ResponseHeaderVersion0(id, rest);
  }

  /**
   * A frame for a waiting request serves that request and no other: its entry
   * is removed, every other entry is kept as it was, and its waiter receives
   * the rest of the frame; when the request expects a tagged-field container,
   * the container is read first and the waiter receives either the decoded
   * map with what follows it, or the error that reading it raised.
   */
  lemma MatchingFrameServed(pending: map<Int32, ActiveRequest>, id: Int32, rest: seq<byte>)
    requires id in pending
    ensures var h := HandleFrame(pending, EncodeInt(I32, id) + rest);
            && h.result == Ok(())
            && h.served == Some(id)
            && (forall k :: k in pending && k != id ==> k in h.pending && h.pending[k] == pending[k])
            && id !in h.pending
            && h.delivery.value.channel == pending[id].channel
            && (!pending[id].useTaggedFieldsInResponse ==>
                  h.delivery.value.outcome == Ok(Response(ResponseHeader(id, None), rest)))
            && (pending[id].useTaggedFieldsInResponse && DecodeTaggedFields(rest).Err? ==>
                  h.delivery.value.outcome == Err(ReadError(DecodeTaggedFields(rest).error)))
            && (pending[id].useTaggedFieldsInResponse && DecodeTaggedFields(rest).Ok? ==>
                  var (fields, after) := DecodeTaggedFields(rest).value;
                  h.delivery.value.outcome == Ok(Response(ResponseHeader(id, Some(fields)), after)))
  {
    ResponseHeaderVersion0(id, rest);
  }

  /** A request expecting tagged fields gets an empty map when the container is the byte 0. */
  lemma EmptyTaggedContainerDelivered(pending: map<Int32, ActiveRequest>, id: Int32, rest: seq<byte>)
    requires id in pending && pending[id].useTaggedFieldsInResponse
    ensures HandleFrame(pending, EncodeInt(I32, id) + [0] + rest).delivery
         == Some(Delivery(pending[id].channel, Ok(Response(ResponseHeader(id, Some(map[])), rest))))
  {
    ResponseHeaderVersion0(id, [0] + rest);
    assert EncodeInt(I32, id) + [0] + rest == EncodeInt(I32, id) + ([0] + rest);
    DecodeZeroCount(rest);
  }

  /** Frames handled one after another: the final table and the ids served, in order. */
  function HandleFrames(pending: map<Int32, ActiveRequest>, frames: seq<seq<byte>>): (r: (map<Int32, ActiveRequest>, seq<Int32>))
    decreases |frames|
  {
    if |frames| == 0 then (pending, [])
    else
      var h := HandleFrame(pending, frames[0]);
      var next := HandleFrames(h.pending, frames[1..]);
      (next.0, (if h.served.Some? then [h.served.value] else []) + next.1)
  }

  predicate Distinct(ids: seq<Int32>) {
    forall i, j :: 0 <= i < j < |ids| ==> ids[i] != ids[j]
  }

  function Elements(ids: seq<Int32>): set<Int32> {
    set id | id in ids
  }

  lemma DistinctCons(id: Int32, ids: seq<Int32>)
    requires id !in ids && Distinct(ids)
    ensures Distinct([id] + ids)
  {
    var all := [id] + ids;
    forall i, j | 0 <= i < j < |all|
      ensures all[i] != all[j]
    {
      assert all[j] == ids[j - 1];
      if i > 0 {
        assert all[i] == ids[i - 1];
      }
    }
  }

  /**
   * Each waiting request is served at most once, however many frames
   * arrive: the served ids are distinct, each was waiting, and the final
   * table is the initial one without them.
   */
  lemma {:induction false} EachRequestServedAtMostOnce(pending: map<Int32, ActiveRequest>, frames: seq<seq<byte>>)
    ensures Distinct(HandleFrames(pending, frames).1)
    ensures forall id :: id in HandleFrames(pending, frames).1 ==> id in pending
    ensures HandleFrames(pending, frames).0 == pending - Elements(HandleFrames(pending, frames).1)
    decreases |frames|
  {
    if |frames| > 0 {
      var h := HandleFrame(pending, frames[0]);
      var next := HandleFrames(h.pending, frames[1..]);
      EachRequestServedAtMostOnce(h.pending, frames[1..]);
      if h.served.Some? {
        var id := h.served.value;
        var served := [id] + next.1;
        assert HandleFrames(pending, frames) == (next.0, served);
        assert id !in next.1;
        DistinctCons(id, next.1);
        assert Elements(served) == {id} + Elements(next.1);
      } else {
        var none: seq<Int32> := [];
        assert none + next.1 == next.1;
        assert HandleFrames(pending, frames) == (next.0, next.1);
      }
    }
  }

  // ---------------------------------------------------------------------------
  // The connection.

  class ConnectionStream {
    /** `correlation_id`: the id the next request gets. */
    var correlationId: Int32
    /** `state`: the requests waiting for their response, by correlation id. */
    var pending: map<Int32, ActiveRequest>
    /** Every value sent to a waiter so far, in order. */
    var delivered: seq<Delivery>

    /** `ConnectionStream::new`: the counter starts at 0 and nobody is waiting yet. */
    constructor ()
      ensures correlationId == 0 && pending == map[] && delivered == []
    {
      correlationId := 0;
      pending := map[];
      delivered := [];
    }

    /** `correlation_id.fetch_add(1, SeqCst)`: the current id, and the counter one further, wrapping. */
    method NextCorrelationId() returns (id: Int32)
      modifies this
      ensures id == old(correlationId) && correlationId == WrapI32(old(correlationId) + 1)
      ensures pending == old(pending) && delivered == old(delivered)
    {
      id := correlationId;
      correlationId := WrapI32(correlationId + 1);
    }

    /**
     * The part of `send_request_with_version_ranges` up to the correlation
     * id: a failed negotiation returns before an id is taken.
     */
    method SendRequestWithVersionRanges(table: map<ApiKey, ApiVersionRange>, request: RequestConstants, response: ResponseConstants)
      returns (r: Result<(Exchange, Int32), RequestError>)
      modifies this
      ensures PlanExchange(table, request, response).Err? ==>
                r == Err(PlanExchange(table, request, response).error) && correlationId == old(correlationId)
      ensures PlanExchange(table, request, response).Ok? ==>
                r == Ok((PlanExchange(table, request, response).value, old(correlationId)))
                && correlationId == WrapI32(old(correlationId) + 1)
      ensures pending == old(pending) && delivered == old(delivered)
    {
      var version: ApiVersion;
      if request.apiKey !in table {
        return Err(NoVersionMatch(request.apiKey));
      }
      var matched := MatchVersions(table[request.apiKey], request.apiVersionRange);
      if matched.None? {
        return Err(NoVersionMatch(request.apiKey));
      }
      version := matched.value;
      var useTaggedFieldsInRequest := request.taggedFieldsMinVersion.Some? && version >= request.taggedFieldsMinVersion.value;
      var useTaggedFieldsInResponse := response.taggedFieldsMinVersion.Some? && version >= response.taggedFieldsMinVersion.value;
      var id := NextCorrelationId();
      r := Ok((Exchange(version, useTaggedFieldsInRequest, useTaggedFieldsInResponse), id));
    }

    /** `read_with_raw_response_message`, on one frame. */
    method ReadWithRawResponseMessage(frame: seq<byte>) returns (res: Result<(), ResponseError>)
      modifies this
      ensures res == HandleFrame(old(pending), frame).result
      ensures pending == HandleFrame(old(pending), frame).pending
      ensures delivered == old(delivered) + (if res.Ok? then [HandleFrame(old(pending), frame).delivery.value] else [])
      ensures correlationId == old(correlationId)
    {
      var data := new Reader(frame);
      var read := DeserializeResponseHeader(data, 0);
      if read.Err? {
        return Err(InvalidHeader(read.error));
      }
      var header := read.value;
      var id := header.correlationId;
      if id !in pending {
        return Err(UnknownRequest(id));
      }
      var active := pending[id];
      pending := pending - {id};
      if active.useTaggedFieldsInResponse {
        var fields := DeserializeTaggedFields(data, 0);
        if fields.Err? {
          delivered := delivered + [Delivery(active.channel, Err(ReadError(fields.error)))];
          return Ok(());
        }
        header := header.(taggedFields := Some(fields.value));
      }
      delivered := delivered + [Delivery(active.channel, Ok(Response(header, data.remaining)))];
      res := Ok(());
    }
  }
}
