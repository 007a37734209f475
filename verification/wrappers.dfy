/** Failure-carrying datatypes used for Python's `None` results and raised exceptions. */
module Wrappers {

  /** `None` stands for Python's `None`, or for a walk that raises. */
  datatype Option<+T> = None | Some(value: T)

  /** The exceptions the modelled code raises on purpose. */
  datatype Error = ValueError

  datatype Result<+T> = Ok(value: T) | Err(error: Error)
}
