/** Optional values and outcomes shared by the corrector and the tutor models. */
module Wrappers {

  datatype Option<T> = None | Some(value: T)

  /** An outcome that is either a value or an error message. */
  datatype Result<T> = Success(value: T) | Failure(error: string)
}
