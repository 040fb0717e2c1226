/**
 * The error taxonomy of the protocol layer (kafcars/src/protocol/error.rs) and the
 * Option / Result carriers that every codec returns.
 */
module Errors {

  datatype Option<+T> = None | Some(value: T) {
    function GetOr(default: T): T {
      match this
      case Some(v) => v
      case None => default
    }
  }

  /** A failure-compatible result: `:-` propagates `Err` exactly like Rust's `?`. */
  datatype Result<+T, +E> = Ok(value: T) | Err(error: E) {
    predicate IsFailure() {
      Err?
    }

    function PropagateFailure<U>(): Result<U, E>
      requires Err?
    {
      Err(error)
    }

    function Extract(): T
      requires Ok?
    {
      value
    }
  }

  /** The only I/O failure a byte-slice reader can report: it ran out of bytes. */
  datatype IoError = UnexpectedEof

  /**
   * Why a message is malformed. The source carries a formatted message; the
   * three messages it can produce are distinguished here by constructor.
   */
  datatype MalformedReason =
    | VarIntOverflow           // "Overflow while reading unsigned var int"
    | OutOfOrderTag(tag: nat)  // "Invalid or out of order tag {tag}"
    | DuplicateTag(tag: nat)   // "Tag {tag} already exists"

  /** SerializationError: Io, UnknownValue, Overflow, Malformed, UnsupportedVersion. */
  datatype SerializationError =
    | Io(source: IoError)
    | UnknownValue
    | Overflow
    | Malformed(reason: MalformedReason)
    | UnsupportedVersion(maxVersion: int, givenVersion: int)
}
