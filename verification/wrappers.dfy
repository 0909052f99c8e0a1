/** The optional value the model uses for matrix cells and for the result of number parsing. */
module Wrappers {

  /** `None` plays the part of Python's `None`; `Some(v)` holds a value. */
  datatype Option<+T> = None | Some(value: T)
}
