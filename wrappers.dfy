/** Option and Result values shared by the modules of the model. */
module Wrappers {

  /** A value that may be absent: Python's `None` or the missing key of a dict. */
  datatype Option<T> = None | Some(value: T) {

    /** `d.get(key, default)`: the value if present, the default otherwise. */
    function GetOr(default: T): T {
      match this
      case Some(v) => v
      case None => default
    }
  }

  /** The outcome of a `clean_*` method: its cleaned value, or the validation error it raises. */
  datatype Result<T, E> = Ok(value: T) | Err(error: E)
}
