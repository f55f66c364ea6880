/** Failure-compatible result types shared by the modules of this model. */
module Wrappers {

  /** An optional value: `None` stands for "no match" where the source would index an empty list. */
  datatype Option<+T> = None | Some(value: T)

  /** The outcome of an operation that can raise: `Failure` carries what went wrong. */
  datatype Result<+R, +E> = Success(value: R) | Failure(error: E)
}
