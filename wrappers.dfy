/** Small wrappers shared by the modules of the wellness tracker model. */
module Wrappers {

  /** An explicit "absent" result, used where the source returns `undefined` or -1. */
  datatype Option<+T> = None | Some(value: T)

  /** A value or the reason it could not be produced. */
  datatype Result<+T, +E> = Ok(value: T) | Err(error: E)
}
