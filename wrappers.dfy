/** Optional values, standing in for Python's `None`. */
module Wrappers {

  datatype Option<+T> = None | Some(value: T)
}

/** Bytes as Python holds them: integers in the range 0 to 255. */
module Bytes {

  type byte = b: int | 0 <= b < 256
}
