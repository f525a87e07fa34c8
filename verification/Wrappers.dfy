/** The two outcome types shared by every component. */
module Wrappers {
  datatype Option<+T> = None | Some(value: T)

  /** `Failure` carries what the source puts in the thrown error. */
  datatype Result<+R, +E> = Success(value: R) | Failure(error: E)
}
