/** Types shared by every other module. */
module Wrappers {
  datatype Option<+T> = None | Some(value: T)

  type Byte = n: int | 0 <= n < 0x100
  type Bytes = seq<Byte>
}
