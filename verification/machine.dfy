/** Machine integer types of the C++ program: the widths the blur code relies on. */
module Machine {

  const INT32_MAX: int := 0x7fff_ffff
  const INT32_MIN: int := -0x8000_0000

  /** A C++ `int`. Arithmetic on this newtype is checked by Dafny never to leave the range,
      which is how the model states that signed overflow (undefined behaviour) cannot happen. */
  newtype Int32 = x: int | INT32_MIN <= x <= INT32_MAX

  /** 2^64: `unsigned long long` and `size_t` arithmetic is taken modulo this. */
  const WORD_MODULUS: int := 0x1_0000_0000_0000_0000

  /** Conversion of a mathematical integer to a 64-bit unsigned value (C++ integral conversion). */
  function ToUnsigned64(x: int): (u: int)
    ensures 0 <= u < WORD_MODULUS
    ensures 0 <= x < WORD_MODULUS ==> u == x
    ensures -WORD_MODULUS <= x < 0 ==> u == x + WORD_MODULUS
  {
    x % WORD_MODULUS
  }

  /** Conversion of a non-negative integer to an `unsigned char`. */
  function ToUnsignedChar(x: int): (b: int)
    ensures 0 <= b < 256
    ensures 0 <= x < 256 ==> b == x
  {
    x % 256
  }

  function Abs(x: int): nat {
    if x < 0 then -x else x
  }
}
