/** Value types shared by the packed string table: bytes, the optional and
    fallible wrappers, the library's error type, and the two table entries
    (a span in the shared buffer and a containment link). */
module Types {

  newtype uint8 = x: int | 0 <= x < 256

  /** The bytes of a UTF-8 string. */
  type Bytes = seq<uint8>

  datatype Option<+T> = None | Some(value: T)

  /** The errors the construction can raise. The pass-through variants
      (I/O, UTF-8 decoding, slice conversion) are never raised by the
      algorithm and are not modelled. */
  datatype Error = StringTooLong(maxLen: nat) | NoMaxStringLen

  datatype Result<+T> = Ok(value: T) | Err(error: Error)

  /** Location of one string in the shared buffer: `(offset, length)`. */
  datatype Span = Span(offset: nat, length: nat)

  /** A string's full bytes occur in string `container` starting at byte `offset`. */
  datatype Link = Link(container: nat, offset: nat)

  /** The length ceiling of one string: `u8::MAX`. */
  const MaxStringLen: nat := 255
}
