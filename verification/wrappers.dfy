/** Small datatypes shared by the rest of the model.
    - Option<T> stands for a C# reference that may be null.
    - Raised<T> is the outcome of a C# call that either returns a value or
      throws; a thrown exception is represented by its message text.
 */
module Wrappers {

  /** A possibly-null reference: None is null. */
  datatype Option<+T> = None | Some(value: T)

  /** The outcome of a call that may throw: either the returned value or
      the message of the exception that escaped it. */
  datatype Raised<+T> = Returned(value: T) | Thrown(message: string)
}
