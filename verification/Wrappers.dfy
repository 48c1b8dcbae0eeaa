/** Types that several modules share. */
module Wrappers {

  datatype Option<T> = None | Some(value: T)

  type Byte = b: nat | b < 256
}
