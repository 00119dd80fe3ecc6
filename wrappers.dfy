/** The usual optional-value datatype: `None` stands for a thrown exception or an
    input outside the model, `Some(v)` for a regular result. */
module Wrappers {
  datatype Option<+T> = None | Some(value: T)
}
