/** Optional values and fallible results, used for the model's external calls:
    a call either produces a value or throws an error carrying a message. */
module Outcomes {

  /** A JavaScript value that may be `undefined` / `null`. */
  datatype Option<+T> = None | Some(value: T)

  /** The outcome of an awaited call: its value, or the message of the error it threw. */
  datatype Result<+T> = Success(value: T) | Failure(error: string)
}
