/** Return types shared by the model: Go's `(T, error)` pairs and nil pointers. */
module Wrappers {

  datatype Option<+T> = None | Some(value: T)

  datatype Result<+T, +E> = Ok(value: T) | Err(error: E)
}
