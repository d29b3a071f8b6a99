/** Shared vocabulary of the SSZ container model: bytes, digests, the crate's
    error type, the SSZ decoder's error type, Option/Result, and the caller's
    growable output buffer that every `ssz_append` extends. */
module SszTypes {

  /** An unsigned byte (`u8`). */
  type Byte = b: int | 0 <= b < 256

  /** A 32-byte digest (`Hash256`). */
  type Hash256 = s: seq<Byte> | |s| == 32 witness seq(32, _ => 0)

  /** Largest value of `usize` on the 64-bit targets the model assumes for lengths. */
  const UsizeMax: nat := 0xFFFF_FFFF_FFFF_FFFF

  /** `ssz::BYTES_PER_LENGTH_OFFSET`: the width of one SSZ offset, in bytes. */
  const BytesPerLengthOffset: nat := 4

  datatype Option<T> = None | Some(value: T)

  datatype Result<T, E> = Ok(value: T) | Err(error: E)

  /** The crate's `Error`. Only `OutOfBounds` is produced by the containers;
      the bitfield variants belong to the external bitfield types. */
  datatype Error = OutOfBounds(i: nat, len: nat)

  /** The cause carried by `DecodeError::BytesInvalid`. The source formats it
      into a message; the model keeps the values the message is built from. */
  datatype InvalidReason =
    | TooManyItems(items: nat, max: nat)        // "... of {items} items exceeds maximum of {max}"
    | WrongItemCount(items: nat, expected: nat) // "FixedVector of {items} items has {expected} items"
    | LengthCheckFailed(cause: Error)           // re-validation through `new` failed
    | MissingOptionalPrefix                     // an `Optional` without its 0x01 identifier

  /** The variants of `ssz::DecodeError` this crate produces. */
  datatype DecodeError =
    | InvalidByteLength(len: nat, expected: nat)
    | ZeroLengthItem
    | BytesInvalid(reason: InvalidReason)

  /** The caller's `&mut Vec<u8>` into which `ssz_append` writes. */
  class ByteBuffer {
    var bytes: seq<Byte>

    constructor ()
      ensures bytes == []
    {
      bytes := [];
    }
  }
}
