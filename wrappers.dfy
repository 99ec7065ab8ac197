/** The nullable-value idiom used throughout the model. */
module Wrappers {

  /** `None` stands for a null pointer or an absent optional field. */
  datatype Option<+T> = None | Some(value: T)
}
