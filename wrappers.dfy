/** Python's `None`-or-value results, as used by the scorer and the decoders. */
module Wrappers {
  datatype Option<+T> = None | Some(value: T)
}
