/** Stock failure-carrying datatypes: the C++ code signals absence with
    boost::optional and failure with thrown `Error` exceptions; the model
    returns these values instead. */
module Wrappers {

  datatype Option<T> = None | Some(value: T) {
    function GetOr(default: T): T {
      match this
      case Some(v) => v
      case None => default
    }
  }

  /** `Err` carries the message of the `Error(ParserError, …)` the source throws. */
  datatype Result<T> = Ok(value: T) | Err(msg: string)
}
