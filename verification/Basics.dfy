/** Definitions shared by several modules. */
module Basics {

  /** 2 to the 64th. */
  const P64 := 0x1_0000_0000_0000_0000

  datatype Option<T> = None | Some(value: T)

  function Power2(n: nat): (p: nat)
    ensures p > 0
  {
    if n == 0 then 1 else 2 * Power2(n - 1)
  }
}
