/** The optional value used for "rejected" results throughout the model. */
module Wrappers {

  /** `None` stands for the `false` the crawler returns for a rejected reference. */
  datatype Option<+T> = None | Some(value: T)
}
