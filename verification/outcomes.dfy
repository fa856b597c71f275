/** Optional values, results and the provider's error kinds. */
module Outcomes {

  datatype Option<T> = None | Some(value: T)

  /** The failures the provider surfaces.
      - FileNotFound, FileAlreadyExists: the provider's own storage exceptions;
      - BlobNotFound: the blob service's "not found" reply, passed through unchanged;
      - InvalidOperation: `Enumerable.Last` on an empty list. */
  datatype Error = FileNotFound | FileAlreadyExists | BlobNotFound | InvalidOperation

  datatype Result<T> = Ok(value: T) | Err(error: Error)

  /** The outcome of an operation that returns nothing when it succeeds. */
  datatype Outcome = Pass | Fail(error: Error)
}
