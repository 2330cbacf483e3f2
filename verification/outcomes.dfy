/** Optional values and results that carry the exceptions of the graph. */
module Outcomes {

  /** A value that may be absent; stands for a Java reference that may be null. */
  datatype Option<+T> = None | Some(value: T)

  /** The exceptions the graph raises towards its callers. */
  datatype Error =
    | NoBacon(message: string)          // the reference actor is not in the input
    | IllegalArgument(message: string)  // a blank query name, or a negative capacity hint

  /** Either a value or one of the errors above. */
  datatype Result<+R> = Success(value: R) | Failure(error: Error)
}
