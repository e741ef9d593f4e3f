/** Failure-carrying results: the model's replacement for the C++ exceptions. */
module Wrappers {

  datatype Option<+T> = None | Some(value: T)

  /** `Err` carries the message the source throws (`std::runtime_error`,
      `std::logic_error`, `std::invalid_argument`). */
  datatype Result<+T> = Ok(value: T) | Err(msg: string)
}
