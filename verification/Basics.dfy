/** Types shared by the models. */
module Basics {
  datatype Option<T> = None | Some(value: T)

  const TWO_64: nat := 0x1_0000_0000_0000_0000

  type uint64 = n: nat | n < TWO_64
}
