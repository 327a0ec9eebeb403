/** Optional values, error codes and result values shared by the store and the path helpers. */
module Results {

  /** An optional value; `None` stands for JavaScript's `undefined`. */
  datatype Option<+T> = None | Some(value: T)

  /** The error codes the store and the path helpers report. */
  datatype ErrorCode =
    | NotFound               // ErrorWithCode<"not-found">
    | InvalidPath            // ErrorWithCode<"invalid-path">
    | InvalidCollectionPath  // ErrorWithCode<"invalid-collection-path">
    | Unknown                // ErrorUnknown: a TypeError that the store catches

  /** A success value or an error code. */
  datatype Result<+T> = Ok(value: T) | Err(error: ErrorCode)
}
