/** Optional values, results, and the unchecked Java exceptions that the modelled code
    throws itself or runs into. An operation that would throw returns `Err`. */
module Outcomes {

  /** A value that may be absent; `None` plays the part of Java's `null`. */
  datatype Option<+T> = None | Some(value: T)

  /** The exceptions raised by the modelled code. */
  datatype Exception =
    | IllegalState      // IllegalStateException
    | IllegalArgument   // IllegalArgumentException
    | NullPointer       // NullPointerException
    | IndexOutOfBounds  // IndexOutOfBoundsException
    | ClassCast         // ClassCastException
    | UnsupportedOperation  // UnsupportedOperationException

  /** Either the new value or the exception that ended the operation. */
  datatype Result<+T> = Ok(value: T) | Err(error: Exception)
}
