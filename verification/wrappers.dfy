/** Small failure-carrying datatypes shared by the scene-graph model. */
module Wrappers {

  /** A nullable reference: `None` stands for a null pointer. */
  datatype Option<+T> = None | Some(value: T)

  /** The outcome of an operation that can abort with an error. */
  datatype Result<+R, +E> = Success(value: R) | Failure(error: E)
}
