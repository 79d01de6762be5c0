/** Absent-or-present values: the model of a `char *` that may be the null pointer. */
module Wrappers {

  /** `None` is the null pointer; `Some(v)` a pointer to the bytes `v`. */
  datatype Option<+T> = None | Some(value: T)
}
