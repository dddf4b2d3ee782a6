/** Option, Result and Outcome: the model's stand-ins for Java's null,
    for a value-or-exception return, and for a check that either passes
    or throws. */
module Wrappers {

  datatype Option<+T> = None | Some(value: T)

  datatype Result<+T, +E> = Ok(value: T) | Err(error: E)

  datatype Outcome<+E> = Pass | Fail(error: E)
}
