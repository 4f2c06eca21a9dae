/** Error values and the success/failure wrappers shared by every module.
    Go returns `(value, error)` pairs; the model returns a `Result` or an
    `Outcome` instead, and a missing value (`nil`) becomes `None`. */
module Outcomes {

  datatype Option<+T> = None | Some(value: T)

  /** A value, or the error that replaced it. */
  datatype Result<+T> = Ok(value: T) | Err(error: Error)

  /** A call that only reports whether it failed. */
  datatype Outcome = Pass | Fail(error: Error)

  /** The errors the modelled code can surface. */
  datatype Error =
    | ServiceError(message: string)  // any error returned by the queue service
    | DecodeError(message: string)   // a JSON document that does not decode into an object
    | PathNotExist(path: string)     // os.Open / os.Stat on a missing path
    | ReadFailed(path: string)       // reading from a handle opened on a directory
    | NoInputGiven                   // neither --file nor --directory
    | BothInputsGiven                // both --file and --directory
    | PathIsDirectory                // --file names a directory
    | PathIsNotDirectory             // --directory names a regular file
}
