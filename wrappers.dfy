/** Values standing in for Java's `null` and for a call that throws a RuntimeException. */
module Wrappers {

  /** A value that may be absent (a Java reference that may be `null`). */
  datatype Option<T> = None | Some(value: T)

  /** The outcome of a Java call: it either returns a value or throws with a message. */
  datatype Outcome<T> = Return(value: T) | Throw(message: string)
}
