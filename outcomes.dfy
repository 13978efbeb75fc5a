/** Failure-carrying values shared by the pipeline stages. */
module Outcomes {

  /** What an external call produced: None when the call raised. */
  datatype Option<+T> = None | Some(value: T)

  /** The error kinds the pipeline itself can surface to its caller. */
  datatype Error =
    | InvalidConfiguration   // a chunk size of zero (Python's range() refuses a zero step)
    | ModelInvocationFailed  // the summarization model raised for some chunk

  datatype Result<+T> = Success(value: T) | Failure(error: Error)
}
