/**
 * Error values of the archive codec and the failure-compatible result types
 * that carry them. Every Go function of the core that returns `error` is
 * modelled with one of these: a `Result<T>` where Go returns `(T, error)` and
 * an `Outcome` where Go returns only `error`.
 */
module Errors {
  import opened Bytes

  /** The distinct failures the core can report. */
  datatype Error =
    // io: a read that found no bytes at all (io.EOF) or only some (io.ErrUnexpectedEOF)
    | Eof
    | UnexpectedEof
    // container framing
    | InvalidFormat                      // magic number mismatch
    | UnsupportedVersion(version: int)
    | UnknownMethod(id: int)
    | FieldTooLong                       // a name or payload too long for its length field
    | TooManyFiles                       // more files than a u32 count can declare
    // transforms
    | InvalidLevel(level: int)
    | CorruptInput                       // DEFLATE stream that does not inflate
    | InvalidKeySize(size: int)          // aes.KeySizeError
    | KdfParameters                      // scrypt refused its cost parameters
    | IncorrectCiphertext                // sealed blob shorter than a nonce
    | AuthenticationFailed               // GCM tag check failed
    // salt decoding (encoding/hex)
    | InvalidHexByte(b: int)
    | OddHexLength
    // file system
    | NotExist(path: seq<byte>)
    | IsDirectory(path: seq<byte>)
    | DirectoriesNotSupported

  /** The result of an operation that returns a value or an error. */
  datatype Result<+T> = Success(value: T) | Failure(error: Error) {
    predicate IsFailure() { Failure? }
    function PropagateFailure<U>(): Result<U> requires Failure? { Failure(error) }
    function Extract(): T requires Success? { value }
  }

  /** A value that may be absent. */
  datatype Option<+T> = None | Some(value: T)

  /** The result of an operation that returns only an error. */
  datatype Outcome = Pass | Fail(error: Error) {
    predicate IsFailure() { Fail? }
    function PropagateFailure(): Outcome requires Fail? { this }
  }
}
