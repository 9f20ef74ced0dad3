/** Types shared by the other modules. */
module Wrappers {

  // A pointer that may be NULL, or a function that may fail.
  datatype Option<+T> = None | Some(value: T)

  // unsigned char
  type Byte = bv8
}
