/** Option and Result, used for the resolvers' null results and thrown errors. */
module Wrappers {

  /** A value that may be absent: GraphQL `null`, a missing argument, a lookup miss. */
  datatype Option<+T> = None | Some(value: T)

  /** The outcome of a resolver that either returns a value or throws an error. */
  datatype Result<+T, +E> = Success(value: T) | Failure(error: E)
}
