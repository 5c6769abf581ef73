/** Small wrapper types shared by every module of the model. */
module Outcomes {

  datatype Option<T> = None | Some(value: T)

  /** The outcome of a call into code outside the model (the network, a library):
      either it returned a value, or it raised an exception that nothing in the
      program catches. */
  datatype CallResult<T> = Ok(value: T) | Raised
}
