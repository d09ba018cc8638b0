/** The optional-value wrapper used throughout the model. */
module Wrappers {

  /** `None` stands for a JavaScript value that is absent (`undefined`) or not a number (`NaN`). */
  datatype Option<+T> = None | Some(value: T)
}
