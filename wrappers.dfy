/** Small value types shared by the modules of this project. */
module Wrappers {

  datatype Option<T> = None | Some(value: T)

  /** The C++ `int` of the index's key type (32 bits, two's complement). */
  newtype int32 = x: int | -0x8000_0000 <= x < 0x8000_0000
}
