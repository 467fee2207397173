/** Failure-carrying return values for the dispatcher's operations. */
module Wrappers {

  datatype Option<+T> = None | Some(value: T)

  /** The Python exceptions the dispatcher lets escape to its caller. */
  datatype Error =
    | KeyError        // a queue name or worker name missing from a dictionary
    | IndexError      // `taskResult[0]` on an empty result list
    | QueueExists     // `createQueue` under a name that is already taken

  /** The outcome of an operation that returns nothing but may raise. */
  datatype Outcome = Done | Fail(error: Error)

  /** The outcome of an operation that returns a value or raises. */
  datatype Result<+T> = Ok(value: T) | Err(error: Error)
}
