/** The present/absent wrapper the model uses for PHP's nullable values. */
module Wrappers {

  /** `None` plays the role of PHP `null`. */
  datatype Option<+T> = None | Some(value: T)
}
