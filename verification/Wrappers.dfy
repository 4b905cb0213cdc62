/** Failure-compatible result types shared by the whole model. */
module Wrappers {

  datatype Option<+T> = None | Some(value: T)

  /** Python exceptions that leave the method they are raised in. */
  datatype Exception =
    | IndexError
    | ValueError
    | OverflowError
    | IntegrityError

  datatype Result<+T> = Ok(value: T) | Raised(error: Exception)
}
