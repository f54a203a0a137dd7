/** Error taxonomy shared by the use cases, and the Option/Result wrappers
    used in place of thrown exceptions. */
module Results {

  datatype Option<+T> = None | Some(value: T)

  /** The domain errors the use cases raise. `StorageFailure` stands for any
      exception thrown by the database (a rejected save, a malformed query). */
  datatype Error =
    | InvalidArgument(message: string)
    | NotFound(missing: seq<string>)
    | StorageFailure

  datatype Result<+T> = Ok(value: T) | Err(error: Error)
}
