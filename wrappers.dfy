/** Stand-ins for Java's null and for calls that may throw. */
module Wrappers {

  /** A reference that may be null. */
  datatype Option<+T> = None | Some(value: T)

  /** The outcome of a call that either returns a value or throws (a remote or checked exception). */
  datatype Result<+T> = Success(value: T) | Thrown
}
