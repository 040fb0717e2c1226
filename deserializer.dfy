/**
 * The primitive decoders of kafcars/src/protocol/deserializer.rs.
 *
 * A decoder is specified by a function from the unread bytes to either an error
 * or the decoded value together with the bytes left after it; the methods read
 * from a `Reader` and are proved to follow those functions. The lemmas relate
 * the decoders to the encoders of module Serializer.
 */
module Deserializer {
  import opened Errors
  import opened Wire
  import opened Serializer

  /** A decoded value and the bytes that remain after it. */
  type Decoded<T> = Result<(T, seq<byte>), SerializationError>

  /**
   * `res` and the reader's `remaining` bytes are what `spec` prescribes; when
   * `spec` is an error, how far the reader got is left open.
   */
  ghost predicate Follows<T>(res: Result<T, SerializationError>, remaining: seq<byte>, spec: Decoded<T>) {
    if spec.Ok? then res == Ok(spec.value.0) && remaining == spec.value.1 else res == Err(spec.error)
  }

  /** One byte: 0 is false, 1 is true, anything else is UnknownValue. */
  function DecodeBool(data: seq<byte>): (r: Decoded<bool>)
    ensures r.Ok? <==> |data| >= 1 && data[0] <= 1
    ensures r.Ok? ==> r.value == (data[0] == 1, data[1..])
    ensures |data| == 0 ==> r == Err(Io(UnexpectedEof))
    ensures |data| >= 1 && data[0] > 1 ==> r == Err(UnknownValue)
  {
    if |data| < 1 then Err(Io(UnexpectedEof))
    else if data[0] == 0 then Ok((false, data[1..]))
    else if data[0] == 1 then Ok((true, data[1..]))
    else Err(UnknownValue)
  }

  /** The number whose big-endian bytes are `bs`. */
  function FromBigEndian(bs: seq<byte>): (x: nat)
    ensures x < Pow256(|bs|)
  {
    if |bs| == 0 then 0 else FromBigEndian(bs[..|bs| - 1]) * 256 + bs[|bs| - 1]
  }

  /** `from_be_bytes` of a signed type reads the top bit as the sign. */
  function FromTwosComplement(kind: IntKind, u: nat): (x: int)
    requires u < kind.Modulus()
  {
    if kind.Signed() && u >= kind.Modulus() / 2 then u - kind.Modulus() else u
  }

  /** `read_exact` of Width bytes, then `from_be_bytes`. */
  function DecodeInt(kind: IntKind, data: seq<byte>): (r: Decoded<int>)
    ensures r.Err? <==> |data| < kind.Width()
    ensures r.Err? ==> r.error == Io(UnexpectedEof)
    ensures r.Ok? ==> kind.Contains(r.value.0) && r.value.1 == data[kind.Width()..]
  {
    if |data| < kind.Width() then Err(Io(UnexpectedEof))
    else Ok((FromTwosComplement(kind, FromBigEndian(data[..kind.Width()])), data[kind.Width()..]))
  }

  lemma {:induction false} BigEndianRoundTrip(x: nat, n: nat)
    requires x < Pow256(n)
    ensures FromBigEndian(BigEndian(x, n)) == x
    decreases n
  {
    if n > 0 {
      var bs := BigEndian(x, n);
      assert bs[..n - 1] == BigEndian(x / 256, n - 1);
      BigEndianRoundTrip(x / 256, n - 1);
    }
  }

  lemma {:induction false} FromBigEndianRoundTrip(bs: seq<byte>)
    ensures BigEndian(FromBigEndian(bs), |bs|) == bs
  {
    if |bs| > 0 {
      var init := bs[..|bs| - 1];
      var x := FromBigEndian(bs);
      assert x / 256 == FromBigEndian(init) && x % 256 == bs[|bs| - 1];
      FromBigEndianRoundTrip(init);
      assert bs == init + [bs[|bs| - 1]];
    }
  }

  /** Decoding the encoding of any in-range `x` gives `x` back and consumes exactly its Width bytes. */
  lemma DecodeIntRoundTrip(kind: IntKind, x: int, rest: seq<byte>)
    requires kind.Contains(x)
    ensures DecodeInt(kind, EncodeInt(kind, x) + rest) == Ok((x, rest))
  {
    var bs := EncodeInt(kind, x);
    assert (bs + rest)[..kind.Width()] == bs;
    assert (bs + rest)[kind.Width()..] == rest;
    BigEndianRoundTrip(TwosComplement(kind, x), kind.Width());
  }

  /** Conversely, re-encoding a decoded integer reproduces the bytes that were consumed. */
  lemma DecodeIntInverse(kind: IntKind, data: seq<byte>)
    requires DecodeInt(kind, data).Ok?
    ensures EncodeInt(kind, DecodeInt(kind, data).value.0) + DecodeInt(kind, data).value.1 == data
  {
    var w := kind.Width();
    var u := FromBigEndian(data[..w]);
    var x := DecodeInt(kind, data).value.0;
    assert TwosComplement(kind, x) == u;
    FromBigEndianRoundTrip(data[..w]);
    assert data == data[..w] + data[w..];
  }

  lemma DecodeBoolRoundTrip(b: bool, rest: seq<byte>)
    ensures DecodeBool(EncodeBool(b) + rest) == Ok((b, rest))
  {
    assert (EncodeBool(b) + rest)[1..] == rest;
  }

  // ---------------------------------------------------------------------------
  // The unsigned varint.

  /**
   * `deserialize_unsigned_var_int` once `shift` bits have been filled. The
   * payload bits of each byte land above all bits already read, so the
   * `res |= (c & 0x7f) << shift` steps add them up; `acc` is that sum kept
   * unreduced, and the `u64` register holds it mod 2^64 (reducing at every step
   * or once at the end gives the same register).
   */
  function DecodeVarIntFrom(data: seq<byte>, shift: nat, acc: nat): (r: Decoded<nat>)
    ensures r.Ok? ==> r.value.0 < U64_LIMIT && |r.value.1| < |data|
    ensures r.Err? ==> r.error == Io(UnexpectedEof) || r.error == Malformed(VarIntOverflow)
    decreases |data|
  {
    if |data| == 0 then Err(Io(UnexpectedEof))
    else
      var c := data[0];
      var acc' := acc + (c % 128) * Pow2(shift);
      if c < 0x80 then Ok((acc' % U64_LIMIT, data[1..]))
      else if shift + 7 > 63 then Err(Malformed(VarIntOverflow))
      else DecodeVarIntFrom(data[1..], shift + 7, acc')
  }

  function DecodeVarInt(data: seq<byte>): (r: Decoded<nat>)
    ensures r.Ok? ==> r.value.0 < U64_LIMIT && |r.value.1| < |data|
    ensures r.Err? ==> r.error == Io(UnexpectedEof) || r.error == Malformed(VarIntOverflow)
  {
    DecodeVarIntFrom(data, 0, 0)
  }

  /** Index of the first byte without the continuation bit, or |data| when there is none. */
  function StopIndex(data: seq<byte>): (k: nat)
    ensures k <= |data|
    ensures forall i :: 0 <= i < k ==> data[i] >= 0x80
    ensures k < |data| ==> data[k] < 0x80
  {
    if |data| == 0 || data[0] < 0x80 then 0 else 1 + StopIndex(data[1..])
  }

  /** The sum of (b_i & 0x7f) * 128^i: what a varint's bytes stand for, least significant group first. */
  function GroupSum(bs: seq<byte>): nat {
    if |bs| == 0 then 0 else bs[0] % 128 + 128 * GroupSum(bs[1..])
  }

  lemma Pow2Plus7(n: nat)
    ensures Pow2(n + 7) == 128 * Pow2(n)
  {
    calc {
      Pow2(n + 7);
      2 * Pow2(n + 6);
      4 * Pow2(n + 5);
      8 * Pow2(n + 4);
      16 * Pow2(n + 3);
      32 * Pow2(n + 2);
      64 * Pow2(n + 1);
      128 * Pow2(n);
    }
  }

  lemma VarIntStep(acc: nat, c: nat, g: nat, p: nat)
    ensures acc + c * p + g * (128 * p) == acc + (c + 128 * g) * p
  {
  }

  /** The sum the decoding loop builds from the groups of `bs`, starting at `shift` with `acc`. */
  function Accumulate(bs: seq<byte>, shift: nat, acc: nat): nat {
    if |bs| == 0 then acc else Accumulate(bs[1..], shift + 7, acc + (bs[0] % 128) * Pow2(shift))
  }

  lemma {:induction false} AccumulateIsGroupSum(bs: seq<byte>, shift: nat, acc: nat)
    ensures Accumulate(bs, shift, acc) == acc + GroupSum(bs) * Pow2(shift)
  {
    if |bs| > 0 {
      var c := bs[0] % 128;
      AccumulateIsGroupSum(bs[1..], shift + 7, acc + c * Pow2(shift));
      Pow2Plus7(shift);
      VarIntStep(acc, c, GroupSum(bs[1..]), Pow2(shift));
    }
  }

  /** The decoding loop from a byte read at `shift`, in terms of where the first stop byte is. */
  lemma {:induction false} DecodeVarIntFromClosedForm(data: seq<byte>, shift: nat, acc: nat)
    requires shift <= 63
    ensures StopIndex(data) < |data| && shift + 7 * StopIndex(data) <= 63 ==>
      DecodeVarIntFrom(data, shift, acc) ==
        Ok((Accumulate(data[..StopIndex(data) + 1], shift, acc) % U64_LIMIT, data[StopIndex(data) + 1..]))
    ensures shift + 7 * StopIndex(data) > 63 ==> DecodeVarIntFrom(data, shift, acc) == Err(Malformed(VarIntOverflow))
    ensures StopIndex(data) == |data| && shift + 7 * StopIndex(data) <= 63 ==>
      DecodeVarIntFrom(data, shift, acc) == Err(Io(UnexpectedEof))
    decreases |data|
  {
    if |data| > 0 {
      var c := data[0];
      var acc' := acc + (c % 128) * Pow2(shift);
      if c >= 0x80 && shift + 7 <= 63 {
        var tail := data[1..];
        DecodeVarIntFromClosedForm(tail, shift + 7, acc');
        var k := StopIndex(tail);
        if k < |tail| {
          assert data[..k + 2][1..] == tail[..k + 1];
        }
      } else if c < 0x80 {
        assert data[..1][1..] == [];
      }
    }
  }

  /**
   * What the varint decoder does with any input: it stops at the first byte
   * whose high bit is clear and returns the sum of the 7-bit groups mod 2^64;
   * ten continuation bytes in a row are Malformed; running out of input first is
   * an I/O error.
   */
  lemma DecodeVarIntClosedForm(data: seq<byte>)
    ensures StopIndex(data) < |data| && StopIndex(data) < 10 ==>
      DecodeVarInt(data) == Ok((GroupSum(data[..StopIndex(data) + 1]) % U64_LIMIT, data[StopIndex(data) + 1..]))
    ensures StopIndex(data) >= 10 ==> DecodeVarInt(data) == Err(Malformed(VarIntOverflow))
    ensures StopIndex(data) == |data| < 10 ==> DecodeVarInt(data) == Err(Io(UnexpectedEof))
  {
    DecodeVarIntFromClosedForm(data, 0, 0);
    var k := StopIndex(data);
    if k < |data| {
      AccumulateFromZero(data[..k + 1]);
    }
  }

  lemma AccumulateFromZero(bs: seq<byte>)
    ensures Accumulate(bs, 0, 0) == GroupSum(bs)
  {
    AccumulateIsGroupSum(bs, 0, 0);
    assert Pow2(0) == 1;
  }

  /** The decoder's answer depends only on the first ten bytes. */
  lemma DecodeVarIntReadsAtMostTen(data: seq<byte>, other: seq<byte>)
    requires |data| >= 10 && |other| >= 10 && data[..10] == other[..10]
    ensures DecodeVarInt(data).Ok? <==> DecodeVarInt(other).Ok?
    ensures DecodeVarInt(data).Ok? ==> DecodeVarInt(data).value.0 == DecodeVarInt(other).value.0
    ensures DecodeVarInt(data).Err? ==> DecodeVarInt(data).error == DecodeVarInt(other).error == Malformed(VarIntOverflow)
  {
    DecodeVarIntClosedForm(data);
    DecodeVarIntClosedForm(other);
    var k := StopIndex(data);
    var k' := StopIndex(other);
    assert forall i :: 0 <= i < 10 ==> data[i] == other[i] by {
      forall i | 0 <= i < 10 ensures data[i] == other[i] {
        assert data[..10][i] == other[..10][i];
      }
    }
    assert (k < 10 || k' < 10) ==> k == k';
    if k < 10 {
      assert data[..k + 1] == other[..k + 1];
    }
  }

  /** A single byte without the continuation bit decodes to itself. */
  lemma DecodeVarIntSingleByte(b: byte, rest: seq<byte>)
    requires b < 0x80
    ensures DecodeVarInt([b] + rest) == Ok((b, rest))
  {
    assert ([b] + rest)[1..] == rest;
  }

  // ---------------------------------------------------------------------------
  // What the varint decoder makes of the varint encoder's output.

  /** a * (1 + 128 + ... + 128^(n-1)): the value of n groups that all hold `a`. */
  function Repunit(a: nat, n: nat): nat {
    if n == 0 then 0 else a + 128 * Repunit(a, n - 1)
  }

  lemma {:induction false} GroupSumOfEqualGroups(bs: seq<byte>, a: nat)
    requires forall i :: 0 <= i < |bs| ==> bs[i] % 128 == a
    ensures GroupSum(bs) == Repunit(a, |bs|)
  {
    if |bs| > 0 {
      GroupSumOfEqualGroups(bs[1..], a);
    }
  }

  lemma {:induction false} Pow128Monotone(m: nat, n: nat)
    requires m <= n
    ensures Pow128(m) <= Pow128(n)
    decreases n
  {
    if m < n {
      Pow128Monotone(m, n - 1);
    }
  }

  /** Every u64 needs at most ten 7-bit groups. */
  lemma VarIntLengthAtMostTen(v: nat)
    requires v < U64_LIMIT
    ensures VarIntLength(v) <= 10
  {
    VarIntLengthBounds(v);
    if VarIntLength(v) > 10 {
      Pow128Monotone(10, VarIntLength(v) - 1);
    }
  }

  /** A sequence whose first byte without continuation bit is at index `k`. */
  lemma StopIndexAt(data: seq<byte>, k: nat)
    requires k < |data| && data[k] < 0x80
    requires forall i :: 0 <= i < k ==> data[i] >= 0x80
    ensures StopIndex(data) == k
  {
  }

  /**
   * Decoding what the encoder writes for `v` gives the number whose groups all
   * equal `v & 0x7f`, repeated VarIntLength(v) times, and consumes exactly the
   * encoder's bytes.
   */
  lemma DecodeEncodeVarInt(v: nat, rest: seq<byte>)
    requires v < U64_LIMIT
    ensures DecodeVarInt(EncodeVarInt(v) + rest) == Ok((Repunit(v % 128, VarIntLength(v)) % U64_LIMIT, rest))
  {
    var e := EncodeVarInt(v);
    var data := e + rest;
    var n := |e|;
    EncodeVarIntShape(v);
    VarIntLengthAtMostTen(v);
    StopIndexAt(data, n - 1);
    assert data[..n] == e;
    assert data[n..] == rest;
    GroupSumOfEqualGroups(e, v % 128);
    DecodeVarIntClosedForm(data);
  }

  /** Encode then decode gives back every value below 128. */
  lemma VarIntRoundTripBelow128(v: nat, rest: seq<byte>)
    requires v < 128
    ensures DecodeVarInt(EncodeVarInt(v) + rest) == Ok((v, rest))
  {
    DecodeEncodeVarInt(v, rest);
  }

  /** ... but not 128: it is written as [0x80, 0x00], which decodes to 0. */
  lemma VarIntRoundTripFailsAt128()
    ensures EncodeVarInt(128) == [0x80, 0x00]
    ensures DecodeVarInt(EncodeVarInt(128)) == Ok((0, []))
  {
    DecodeEncodeVarInt(128, []);
  }

  /**
   * The round trip holds exactly for the values that equal the number whose
   * groups all hold their own low seven bits, truncated to 64 bits.
   */
  lemma VarIntRoundTripExactly(v: nat, rest: seq<byte>)
    requires v < U64_LIMIT
    ensures DecodeVarInt(EncodeVarInt(v) + rest) == Ok((v, rest))
        <==> Repunit(v % 128, VarIntLength(v)) % U64_LIMIT == v
  {
    DecodeEncodeVarInt(v, rest);
  }

  /** 129 has two groups that both hold 1, so it is written as [0x81, 0x01] and read back. */
  lemma VarIntRoundTrip129(rest: seq<byte>)
    ensures EncodeVarInt(129) == [0x81, 0x01]
    ensures DecodeVarInt(EncodeVarInt(129) + rest) == Ok((129, rest))
  {
    DecodeEncodeVarInt(129, rest);
  }

  // ---------------------------------------------------------------------------
  // The `DeserializeVersioned` impls, reading from a Reader. The version
  // argument is accepted and ignored, as in the source.

  method DeserializeBool(r: Reader, version: ApiVersion) returns (res: Result<bool, SerializationError>)
    modifies r
    ensures Follows(res, r.remaining, DecodeBool(old(r.remaining)))
  {
    var buf :- r.ReadExact(1);
    if buf[0] == 0 {
      res := Ok(false);
    } else if buf[0] == 1 {
      res := Ok(true);
    } else {
      res := Err(UnknownValue);
    }
  }

  method DeserializeInt(kind: IntKind, r: Reader, version: ApiVersion) returns (res: Result<int, SerializationError>)
    modifies r
    ensures Follows(res, r.remaining, DecodeInt(kind, old(r.remaining)))
  {
    var buf :- r.ReadExact(kind.Width());
    res := Ok(FromTwosComplement(kind, FromBigEndian(buf)));
  }

  method DeserializeUnsignedVarInt(r: Reader) returns (res: Result<nat, SerializationError>)
    modifies r
    ensures Follows(res, r.remaining, DecodeVarInt(old(r.remaining)))
  {
    var acc: nat := 0;
    var shift: nat := 0;
    while true
      invariant DecodeVarIntFrom(r.remaining, shift, acc) == DecodeVarInt(old(r.remaining))
      decreases |r.remaining|
    {
      var buf :- r.ReadExact(1);
      var c := buf[0];
      acc := acc + (c % 128) * Pow2(shift);
      shift := shift + 7;
      if c < 0x80 {
        break;
      }
      if shift > 63 {
        return Err(Malformed(VarIntOverflow));
      }
    }
    res := Ok(acc % U64_LIMIT);
  }
}
