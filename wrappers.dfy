/** The absent-or-present value used wherever JavaScript yields `null` or `NaN`. */
module Wrappers {

  datatype Option<+T> = None | Some(value: T)
}
