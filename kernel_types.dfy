/** C integer widths and error numbers that the driver relies on.
    Dafny integers are unbounded, so every C conversion the driver performs
    implicitly (unsigned to int, int to u8) is written out here. */
module KernelTypes {

  /** `u8`: one register address or one register value on the SMBus. */
  type Byte = x: int | 0 <= x < 0x100

  /** `unsigned int` (32 bits on the targets of this driver). */
  type U32 = x: int | 0 <= x < 0x1_0000_0000

  /** `int` (32 bits, two's complement). */
  type I32 = x: int | -0x8000_0000 <= x < 0x8000_0000

  /** A negative error number as the bus layer returns it. */
  type Errno = x: int | x < 0 witness -5

  /** Linux error numbers used by the driver (returned negated). */
  const EIO: int := 5
  const ENODEV: int := 19

  /** Conversion to `unsigned int`: reduction modulo 2^32. */
  function ToU32(x: int): (r: U32)
    ensures (x - r) % 0x1_0000_0000 == 0
    ensures 0 <= x < 0x1_0000_0000 ==> r == x
    ensures -0x1_0000_0000 <= x < 0 ==> r == x + 0x1_0000_0000
  {
    x % 0x1_0000_0000
  }

  /** Conversion to `u8`: the low byte of the two's complement representation. */
  function ToU8(x: int): (r: Byte)
    ensures (x - r) % 0x100 == 0
    ensures 0 <= x < 0x100 ==> r == x
  {
    x % 0x100
  }

  /** Conversion of an `unsigned int` to `int` (the compiler keeps the bit pattern).
      The bit pattern, and with it the low byte, survives. */
  function ToI32(u: U32): (r: I32)
    ensures ToU32(r) == u
    ensures ToU8(r) == ToU8(u)
    ensures u < 0x8000_0000 ==> r == u
  {
    if u < 0x8000_0000 then u else u - 0x1_0000_0000
  }
}
