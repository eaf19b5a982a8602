/** The optional-value datatype the model uses for operations that can fail. */
module Wrappers {

  /** `None` stands for a failure that carries no further information. */
  datatype Option<+T> = None | Some(value: T)
}
