/** Error taxonomy and failure-compatible result types shared by the SiaFile model. */
module Errors {

  /** The error classes the storage core distinguishes: a retryable disk fault
      versus structural errors that are fatal. */
  datatype Error =
    | DiskFault          // transient fault injected by the I/O dependency; retryable
    | VersionMismatch    // metadata written by an unknown version
    | Truncated          // input ended before a field was complete, or has trailing bytes
    | MalformedUpdate    // an update record that cannot be read or resolved
    | NegativeOffset     // a write at a negative file offset
  {
    predicate IsFatal() { !DiskFault? }
  }

  datatype Option<+T> = None | Some(value: T)

  datatype Result<+T> = Ok(value: T) | Err(error: Error) {
    predicate IsFailure() { Err? }

    function PropagateFailure<U>(): Result<U>
      requires Err?
    {
      Err(error)
    }

    function Extract(): T
      requires Ok?
    {
      value
    }
  }
}
