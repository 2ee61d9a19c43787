/** Result types, the byte type and the build profile shared by the modelled components. */
module Wrappers {

  type Byte = b: int | 0 <= b < 256

  datatype Option<+T> = None | Some(value: T)

  /** How arithmetic overflow is compiled: a debug build stops, a release build wraps. */
  datatype Profile = Debug | Release

  datatype Result<+T, +E> = Ok(value: T) | Err(error: E)
}
