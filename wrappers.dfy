/** Optional values and the exceptions the modelled Java methods throw. */
module Wrappers {

  datatype Option<+T> = None | Some(value: T)

  /** The exception classes that the modelled code raises. */
  datatype Exception =
    | IllegalArgument       // Preconditions.checkArgument / IllegalArgumentException
    | Arithmetic            // integer division by zero
    | NullPointer           // dereferencing a field that is still null
    | RegionOperation       // RegionOperationException
    | NoSuchElement         // Iterator.next past the end

  /** The value a Java method returns, or the exception it throws. */
  datatype Result<+T> = Ok(value: T) | Throws(exception: Exception)

  /** The outcome of a Java method returning `void`. */
  datatype Outcome = Done | Raised(exception: Exception)
}
