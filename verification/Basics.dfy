/** Small definitions the other modules share. */
module Basics {

  /** One more than the largest 32-bit number. */
  const U32: nat := 0x1_0000_0000

  datatype Option<T> = None | Some(value: T)

  function Min(a: nat, b: nat): (m: nat)
    ensures m <= a && m <= b
  {
    if a < b then a else b
  }
}
