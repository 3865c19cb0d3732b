/** Results, and one error tag per sentinel of the package. */
module Outcomes {

  datatype Error =
    | InvalidToken
    | Malformed
    | SignatureInvalid
    | DecryptFailed
    | InvalidKeyType
    | InvalidKey
    | KeyNotFound
    | UnsupportedAlgorithm
    | UnsupportedEncryption
    | NoneAlgDisallowed
    | InvalidCrit
    | InvalidHeader
    | CompressionLimit
    | IterationCount
    | DetachedPayload
    | UnprotectedB64
    | UnprotectedCritical
    | KeyUseMismatch
    | KeyAlgMismatch
    | KeyOpsMismatch
    // An error of a library routine that the package passes on without a sentinel.
    | Library
    // Not an error value: the program stops with a run-time panic.
    | Panic

  datatype Option<+T> = None | Some(value: T)

  datatype Result<+T> = Ok(value: T) | Err(error: Error) {
    predicate IsFailure() { Err? }

    function PropagateFailure<U>(): Result<U>
      requires Err?
    {
      Err(error)
    }

    function Extract(): T
      requires Ok?
    {
      value
    }
  }

  /** The outcome of a check that returns no value. */
  datatype Outcome = Pass | Fail(error: Error) {
    predicate IsFailure() { Fail? }

    function PropagateFailure<U>(): Result<U>
      requires Fail?
    {
      Err(error)
    }
  }

  /** A library result without an error sentinel of its own, reported as `e`. */
  function OrElse<T>(o: Option<T>, e: Error): Result<T> {
    match o
    case Some(v) => Ok(v)
    case None => Err(e)
  }
}
