/**
 * What every module may need: an optional value and the machine word's bound.
 */
module Basics {
  const U64: nat := 0x1_0000_0000_0000_0000

  datatype Option<+T> = None | Some(value: T)
}
