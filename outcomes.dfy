/** Outcomes of operations that the source may abandon by throwing. */
module Outcomes {

  /** A value, or the message of the exception thrown instead. */
  datatype Result<T> = Ok(value: T) | Failure(message: string)

  /** The outcome of a state-changing operation with no result. */
  datatype Status = Completed | Threw(message: string)
}
