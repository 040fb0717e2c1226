/**
 * The primitive encoders of kafcars/src/protocol/serializer.rs: booleans, the
 * fixed-width big-endian integers, the unsigned varint and the compact string.
 *
 * Each encoder is given twice: as a function that says which bytes it produces,
 * and as a method that appends those bytes to a `Writer` the way the source
 * does. The lemmas below are about the functions.
 */
module Serializer {
  import opened Errors
  import opened Wire

  /** The five fixed-width integer types that implement `SerializeVersioned`. */
  datatype IntKind = I8 | I16 | I32 | U32 | I64 {
    /** Size of the type in bytes. */
    function Width(): nat {
      match this
      case I8 => 1
      case I16 => 2
      case I32 => 4
      case U32 => 4
      case I64 => 8
    }

    /** Number of distinct values of the type: 256^Width. */
    function Modulus(): nat {
      Pow256(Width())
    }

    predicate Signed() {
      !U32?
    }

    /** The values the Rust type can hold. */
    predicate Contains(x: int) {
      if Signed() then -(Modulus() / 2) <= x < Modulus() / 2 else 0 <= x < Modulus()
    }
  }

  /** A bool is the single byte 1 or 0. */
  function EncodeBool(b: bool): (bs: seq<byte>)
    ensures |bs| == 1 && (bs[0] == 1 <==> b) && (bs[0] == 0 <==> !b)
  {
    [if b then 1 else 0]
  }

  /** The `n`-byte big-endian representation of `x`, most significant byte first. */
  function BigEndian(x: nat, n: nat): (bs: seq<byte>)
    requires x < Pow256(n)
    ensures |bs| == n
    decreases n
  {
    if n == 0 then [] else BigEndian(x / 256, n - 1) + [x % 256]
  }

  /** The bit pattern of `x` read as an unsigned number (two's complement for signed types). */
  function TwosComplement(kind: IntKind, x: int): (u: nat)
    requires kind.Contains(x)
    ensures u < kind.Modulus()
    ensures x >= 0 ==> u == x
  {
    if x < 0 then x + kind.Modulus() else x
  }

  /** `to_be_bytes`: the value's bit pattern as `Width` big-endian bytes. */
  function EncodeInt(kind: IntKind, x: int): (bs: seq<byte>)
    requires kind.Contains(x)
    ensures |bs| == kind.Width()
  {
    BigEndian(TwosComplement(kind, x), kind.Width())
  }

  /**
   * The bytes `serialize_unsigned_var_int(val, ..)` writes from the point where
   * its shift register `curr` holds `curr`. As in the source, every byte takes
   * its low seven bits from `val`, not from `curr`; `curr` only decides how many
   * bytes are written and which carry the continuation bit 0x80.
   */
  function VarIntBytesFrom(val: nat, curr: nat): (bs: seq<byte>)
    decreases curr
  {
    var next := curr / 128;
    var c := val % 128 + (if next > 0 then 0x80 else 0);
    if next == 0 then [c] else [c] + VarIntBytesFrom(val, next)
  }

  /** `serialize_unsigned_var_int` as written. */
  function EncodeVarInt(val: nat): seq<byte> {
    VarIntBytesFrom(val, val)
  }

  /** Number of 7-bit groups needed for `v`: max(1, ceil(bitlen(v) / 7)). */
  function VarIntLength(v: nat): (n: nat)
    ensures n >= 1
  {
    if v < 128 then 1 else 1 + VarIntLength(v / 128)
  }

  lemma {:induction false} VarIntLengthBounds(v: nat)
    ensures v < Pow128(VarIntLength(v))
    ensures VarIntLength(v) > 1 ==> Pow128(VarIntLength(v) - 1) <= v
  {
    if v >= 128 {
      VarIntLengthBounds(v / 128);
    }
  }

  lemma {:induction false} VarIntBytesFromShape(val: nat, curr: nat)
    ensures |VarIntBytesFrom(val, curr)| == VarIntLength(curr)
    ensures forall i :: 0 <= i < |VarIntBytesFrom(val, curr)| ==> VarIntBytesFrom(val, curr)[i] % 128 == val % 128
    ensures forall i :: 0 <= i < |VarIntBytesFrom(val, curr)| ==>
              (VarIntBytesFrom(val, curr)[i] >= 0x80 <==> i < |VarIntBytesFrom(val, curr)| - 1)
    decreases curr
  {
    if curr / 128 > 0 {
      VarIntBytesFromShape(val, curr / 128);
    }
  }

  /**
   * The varint encoder writes VarIntLength(val) bytes, sets 0x80 on all but the
   * last, and gives every byte the low seven bits of `val`.
   */
  lemma EncodeVarIntShape(val: nat)
    ensures |EncodeVarInt(val)| == VarIntLength(val)
    ensures forall i :: 0 <= i < |EncodeVarInt(val)| ==> EncodeVarInt(val)[i] % 128 == val % 128
    ensures forall i :: 0 <= i < |EncodeVarInt(val)| ==> (EncodeVarInt(val)[i] >= 0x80 <==> i < |EncodeVarInt(val)| - 1)
  {
    VarIntBytesFromShape(val, val);
  }

  /** Below 128 the varint is the single byte `val`; in particular 0 is the byte 0x00. */
  lemma EncodeVarIntSmall(val: nat)
    requires val < 128
    ensures EncodeVarInt(val) == [val]
  {
  }

  /**
   * `serialize_compact_string`: varint(len + 1), then the raw bytes. The `u64`
   * conversion of `len + 1` is the only way it can fail (Overflow).
   */
  function EncodeCompactString(s: seq<byte>): (r: Result<seq<byte>, SerializationError>)
    ensures r.Err? ==> r.error == Overflow
  {
    var len := |s| + 1;
    if len >= U64_LIMIT then Err(Overflow) else Ok(EncodeVarInt(len) + s)
  }

  /**
   * Every string whose length + 1 fits a `u64` (all strings a 64-bit process can
   * hold) encodes, as a varint of length + 1 followed by the string itself.
   */
  lemma CompactStringLayout(s: seq<byte>)
    requires |s| + 1 < U64_LIMIT
    ensures EncodeCompactString(s).Ok?
    ensures |EncodeCompactString(s).value| == VarIntLength(|s| + 1) + |s|
    ensures EncodeCompactString(s).value[VarIntLength(|s| + 1)..] == s
    ensures EncodeCompactString(s).value == EncodeVarInt(|s| + 1) + s
  {
    EncodeVarIntShape(|s| + 1);
  }

  // ---------------------------------------------------------------------------
  // The `SerializeVersioned` impls and free functions, writing into a Writer.
  // The version argument is accepted and ignored, as in the source.

  method SerializeBool(b: bool, w: Writer, version: ApiVersion)
    modifies w
    ensures w.bytes == old(w.bytes) + EncodeBool(b)
  {
    w.WriteAll([if b then 1 else 0]);
  }

  method SerializeInt(kind: IntKind, x: int, w: Writer, version: ApiVersion)
    requires kind.Contains(x)
    modifies w
    ensures w.bytes == old(w.bytes) + EncodeInt(kind, x)
  {
    w.WriteAll(EncodeInt(kind, x));
  }

  /** The varint loop, with its `val & 0x7f` mask kept as written. */
  method SerializeUnsignedVarInt(val: nat, w: Writer)
    requires val < U64_LIMIT
    modifies w
    ensures w.bytes == old(w.bytes) + EncodeVarInt(val)
  {
    var curr := val;
    while true
      invariant old(w.bytes) + EncodeVarInt(val) == w.bytes + VarIntBytesFrom(val, curr)
      decreases curr
    {
      var c := val % 128;
      var next := curr / 128;
      if next > 0 {
        c := c + 0x80;
      }
      w.WriteAll([c]);
      if next == 0 {
        break;
      }
      curr := next;
    }
  }

  method SerializeCompactString(s: seq<byte>, w: Writer) returns (r: Result<(), SerializationError>)
    modifies w
    ensures EncodeCompactString(s).Ok? ==> r.Ok? && w.bytes == old(w.bytes) + EncodeCompactString(s).value
    ensures EncodeCompactString(s).Err? ==> r == Err(Overflow) && w.bytes == old(w.bytes)
  {
    var len := |s| + 1;
    if len >= U64_LIMIT {
      return Err(Overflow);
    }
    SerializeUnsignedVarInt(len, w);
    w.WriteAll(s);
    r := Ok(());
  }
}
