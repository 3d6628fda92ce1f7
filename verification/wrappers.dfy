/** The optional value both optimizers use for "no result". */
module Wrappers {

  /** `None` stands for the source's `None` return. */
  datatype Option<+T> = None | Some(value: T)
}
