/** Unsigned 64-bit counters. */
module Counters {

  const TWO_TO_64: nat := 0x1_0000_0000_0000_0000

  /** A counter that is allowed to wrap around. */
  function Increment(n: nat): nat {
    (n + 1) % TWO_TO_64
  }

  /** Addition where the callers show that it never wraps around. */
  function Add64(a: nat, b: nat): nat
    requires a + b < TWO_TO_64
  {
    a + b
  }
}
