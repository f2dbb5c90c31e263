module Wrappers {

  datatype Option<+T> = None | Some(value: T)
}

module Bytes {

  newtype Byte = x: int | 0 <= x < 256
}
