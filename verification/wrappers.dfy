/** Failure-carrying values used for the error paths of the pipeline. */
module Wrappers {

  datatype Option<+T> = None | Some(value: T)

  datatype Result<+T, +E> = Ok(value: T) | Err(error: E)

  /** An HTTP error as raised by a route: a status code and its detail text. */
  datatype HttpError = HttpError(status: nat, detail: string)
}
