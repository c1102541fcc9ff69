/** Failure-carrying shapes used throughout the model: an optional value
    (a JavaScript property that may be `undefined`) and a success/error result
    (a value returned or an exception thrown). */
module Wrappers {

  datatype Option<+T> = None | Some(value: T)

  datatype Result<+R, +E> = Ok(value: R) | Err(error: E)
}
