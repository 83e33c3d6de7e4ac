/** The optional-value datatype used for lookups and for the partial decoders. */
module Wrappers {

  /** `None` stands for PHP's `null` (or for "no value") and `Some` for a present value. */
  datatype Option<+T> = None | Some(value: T)
}
