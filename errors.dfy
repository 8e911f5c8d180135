/** The three ways decoding a radar view can fail, and the result type that
    carries either a value or one of them. */
module DecodeErrors {

  /** A byte of the encoded text's UTF-8 form. */
  type byte = bv8

  datatype DecodeError =
    | InvalidLength              // the encoded length is 1 modulo 4
    | InvalidCharacter(c: byte)  // the first character outside the alphabet
    | InsufficientData           // fewer than 11 bytes were decoded

  datatype Result<T> = Ok(value: T) | Err(error: DecodeError)
}
