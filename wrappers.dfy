/** Option and the settled state of a promise, shared by every module of the model. */
module Wrappers {

  datatype Option<+T> = None | Some(value: T)

  /** How an awaited call settles: fulfilled with a value, or rejected (thrown). */
  datatype Outcome<+T> = Ok(value: T) | Failed
}
