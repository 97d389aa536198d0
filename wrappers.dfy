/** Small optional-value datatype shared by the modules of this project. */
module Wrappers {

  /** A value that may be absent: the model of a C call that reports failure
      instead of producing a result. */
  datatype Option<+T> = None | Some(value: T)
}
