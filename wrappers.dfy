/** Optional values and results shared by every module of the model. */
module Wrappers {

  /** `undefined`/`null` versus a present value. */
  datatype Option<+T> = None | Some(value: T) {
    function GetOr(default: T): T {
      match this
      case Some(v) => v
      case None => default
    }
  }

  /** A storage call that either resolves with a value or rejects with the runtime's error message. */
  datatype Result<+T> = Ok(value: T) | Err(error: string)
}
