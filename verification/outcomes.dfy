/** Optional values and success-or-error results, used where the application
    either produces a value or answers with an error. */
module Outcomes {

  datatype Option<+T> = None | Some(value: T)

  datatype Result<+T, +E> = Ok(value: T) | Err(error: E)
}
