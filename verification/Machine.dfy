// The fixed-width unsigned integers of the servers, as ranges of int.
module Machine {
  const TWO_32: nat := 0x1_0000_0000

  type byte = x: int | 0 <= x < 256
  type uint32 = x: int | 0 <= x < 0x1_0000_0000
  type uint64 = x: int | 0 <= x < 0x1_0000_0000_0000_0000

  /** Unsigned 32-bit arithmetic is arithmetic modulo 2^32. */
  function Wrap32(x: int): uint32 {
    x % 0x1_0000_0000
  }

  /** So small numbers stay, small negative ones become their two's complement, and wrapping is a congruence. */
  lemma WrapSpec(x: int)
    ensures 0 <= x < 0x1_0000_0000 ==> Wrap32(x) == x
    ensures -0x1_0000_0000 <= x < 0 ==> Wrap32(x) == x + 0x1_0000_0000
    ensures Wrap32(x + 0x1_0000_0000) == Wrap32(x) == Wrap32(x - 0x1_0000_0000)
  {
  }

  datatype Option<+T> = None | Some(value: T)
}
