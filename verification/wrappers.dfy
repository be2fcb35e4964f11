/** Failure-compatible wrapper used where the PHP code throws instead of returning. */
module Wrappers {

  /** `None` stands for the exception the PHP code throws; `Some` carries the value. */
  datatype Option<+T> = None | Some(value: T)
}
