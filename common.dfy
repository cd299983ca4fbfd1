/** Shared vocabulary: bytes, the optional and fallible result types, and the
    error kinds the command-line tool reports (the `anyhow::Error` values it
    propagates with `?`, plus the panics its code can reach). */
module Common {

  /** An unsigned 8-bit value, `u8` in the source. */
  type byte = x: int | 0 <= x < 256

  datatype Option<+T> = None | Some(value: T)

  /** What `?` propagates. `Panic` stands for a program abort (an index out of
      range, an `expect` on `None`), which is not an `Err` value in the source but
      ends the operation just the same. */
  datatype Error =
    | NotFound                      // File::open / fs::read on a missing path
    | IoFailure                     // a read of an existing entry that fails (a directory)
    | InvalidKeyLength              // slice-to-array conversion of key bytes
    | InvalidPublicKey              // VerifyingKey::from_bytes rejects the point
    | InvalidSignatureLength        // slice-to-[u8; 64] conversion of a signature
    | Base64Decode                  // the base64 engine rejects its input
    | InvalidUtf8                   // read_to_string / String::from_utf8
    | UnsupportedFormat(message: string)
    | Panic(reason: string)

  datatype Result<+T> = Ok(value: T) | Err(error: Error) {
    predicate IsFailure() { Err? }

    function PropagateFailure<U>(): Result<U>
      requires Err?
    {
      Err(error)
    }

    function Extract(): T
      requires Ok?
    {
      value
    }
  }
}
