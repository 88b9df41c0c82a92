/** Option and Result types shared by every module of the model. */
module Wrappers {

  /** Python's `None` or a value. */
  datatype Option<T> = None | Some(value: T)

  /** The outcome of a Python computation that either returns a value or raises an exception.
      Which exception is raised never matters to the callers in this model, so it is not recorded. */
  datatype Result<T> = Ok(value: T) | Raised
}
