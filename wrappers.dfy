/** Option and Result, used for Java's nullable values and thrown exceptions. */
module Wrappers {

  /** A value that may be absent: Java's `null` or an empty `Optional`. */
  datatype Option<+T> = None | Some(value: T)

  /** Either a value or the exception a Java method would throw instead. */
  datatype Result<+R, +E> = Success(value: R) | Failure(error: E)

  /**
   * The NullPointerException raised by Ditto's `checkNotNull` and by builder
   * methods given a null argument; `argument` names the offending parameter.
   */
  datatype NullArgument = NullArgument(argument: string)
}
