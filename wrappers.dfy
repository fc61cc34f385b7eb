/** Option and Result values used where the scripts return `null`, throw, or
    receive an absent value. */
module Wrappers {

  datatype Option<+T> = None | Some(value: T)

  datatype Result<+R, +E> = Ok(value: R) | Err(error: E)
}
