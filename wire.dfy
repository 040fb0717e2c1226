/**
 * Bytes, protocol versions and the two stream ends the codecs work on:
 * a `Writer` that only grows by appending (the `W: Write` of the serializers)
 * and a `Reader` that hands out its bytes front to back (the `R: Read` of the
 * deserializers, in practice a `Cursor<Vec<u8>>` over one frame).
 */
module Wire {
  import opened Errors

  /** An unsigned octet. Bit operations on it are written arithmetically. */
  type byte = b: int | 0 <= b < 0x100

  /** `ApiVersion` is an `i16`. */
  type ApiVersion = v: int | -0x8000 <= v < 0x8000

  /** 2^64: every `u64` lies below it. */
  const U64_LIMIT: nat := 0x1_0000_0000_0000_0000

  /** A `u64`. */
  type u64 = x: nat | x < U64_LIMIT

  function Pow2(n: nat): (p: nat)
    ensures p >= 1
  {
    if n == 0 then 1 else 2 * Pow2(n - 1)
  }

  function Pow128(n: nat): (p: nat)
    ensures p >= 1
  {
    if n == 0 then 1 else 128 * Pow128(n - 1)
  }

  function Pow256(n: nat): (p: nat)
    ensures p >= 1
  {
    if n == 0 then 1 else 256 * Pow256(n - 1)
  }

  function Min(a: int, b: int): int {
    if a <= b then a else b
  }

  lemma AppendAssoc(a: seq<byte>, b: seq<byte>, c: seq<byte>)
    ensures a + b + c == a + (b + c)
  {
  }

  /** `n` zero bytes, as `vec![0u8; n]` allocates them. */
  function Zeros(n: nat): (z: seq<byte>)
    ensures |z| == n && forall i :: 0 <= i < n ==> z[i] == 0
  {
    seq(n, _ => 0)
  }

  /** An in-memory writer. Writing to it cannot fail. */
  class Writer {
    var bytes: seq<byte>

    constructor ()
      ensures bytes == []
    {
      bytes := [];
    }

    /** `write_all`: appends every byte, in order. */
    method WriteAll(bs: seq<byte>)
      modifies this
      ensures bytes == old(bytes) + bs
    {
      bytes := bytes + bs;
    }
  }

  /** A reader over a fixed byte sequence; `remaining` is what has not been read yet. */
  class Reader {
    var remaining: seq<byte>

    constructor (data: seq<byte>)
      ensures remaining == data
    {
      remaining := data;
    }

    /**
     * `read_exact`: the next `n` bytes, or an UnexpectedEof I/O error when fewer
     * remain (what is left to read after that error is not specified).
     */
    method ReadExact(n: nat) returns (r: Result<seq<byte>, SerializationError>)
      modifies this
      ensures n <= |old(remaining)| ==> r == Ok(old(remaining)[..n]) && remaining == old(remaining)[n..]
      ensures n > |old(remaining)| ==> r == Err(Io(UnexpectedEof))
    {
      if n <= |remaining| {
        r := Ok(remaining[..n]);
        remaining := remaining[n..];
      } else {
        r := Err(Io(UnexpectedEof));
        remaining := [];
      }
    }

    /** `take(n).read_to_end(..)`: at most `n` bytes, fewer when the input ends first; never an error. */
    method ReadUpTo(n: nat) returns (chunk: seq<byte>)
      modifies this
      ensures chunk == old(remaining)[..Min(n, |old(remaining)|)]
      ensures remaining == old(remaining)[Min(n, |old(remaining)|)..]
    {
      var k := Min(n, |remaining|);
      chunk := remaining[..k];
      remaining := remaining[k..];
    }
  }
}
