/** Python's `None`-or-value, as used by the model for optional texts and errors. */
module Wrappers {

  datatype Option<+T> = None | Some(value: T)
}
