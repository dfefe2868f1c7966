/** How the model stands in for Java's null references and exceptions.
    Java lets any object reference be null, so a nullable argument or return
    value becomes an `Option`. Every Java call in the core either returns or
    throws a NullPointerException, raised when a null Integer is unboxed, and
    `Completion` records which of the two happened. */
module Wrappers {

  /** A reference that is either null (`None`) or points at `value`. */
  datatype Option<+T> = None | Some(value: T)

  /** The outcome of a Java call: it returned `value`, or it threw a
      NullPointerException. */
  datatype Completion<+T> = Returned(value: T) | NullPointerException
}
