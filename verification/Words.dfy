/** Unsigned 64-bit arithmetic on unbounded numbers. */
module Words {

  const TWO_TO_THE_64: nat := 0x1_0000_0000_0000_0000

  /** Conversion of a signed to an unsigned 64-bit number. */
  function U64(x: int): nat {
    x % TWO_TO_THE_64
  }

  /** Subtraction and doubling, which wrap around. */
  function Sub64(a: nat, b: nat): nat {
    U64(a - b)
  }

  function Twice64(a: nat): nat {
    U64(a * 2)
  }
}
