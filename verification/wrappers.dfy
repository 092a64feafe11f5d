/** Option and Result, shared by every module of the model. `Result` stands for
    a Swift function that either returns a value or throws an error. */
module Wrappers {

  datatype Option<+T> = None | Some(value: T)

  datatype Result<+T, +E> = Ok(value: T) | Err(error: E)
}
