/** A present-or-absent value: the model's stand-in for a field that is
    either extracted or set to Python's `None` by an `except` branch. */
module Wrappers {
  datatype Option<+T> = None | Some(value: T)
}
