/** The parts of Java's semantics that the steganography controller relies
    on: 32-bit `int` arithmetic and the exceptions its codec can raise. */
module Java {
  import opened Bits

  const INT_MIN: int := -0x8000_0000
  const INT_MAX: int := 0x7FFF_FFFF

  /** A value that a Java `int` (and so an array length or index) can hold. */
  predicate IsInt(x: int) {
    INT_MIN <= x <= INT_MAX
  }

  /** Java's `a + b` on two `int`s: the sum wrapped around to 32 bits. */
  function AddInt(a: int, b: int): (r: int)
    requires IsInt(a) && IsInt(b)
    ensures IsInt(r)
    ensures (r - (a + b)) % 0x1_0000_0000 == 0
    ensures IsInt(a + b) ==> r == a + b
  {
    var s := a + b;
    if s > INT_MAX then s - 0x1_0000_0000
    else if s < INT_MIN then s + 0x1_0000_0000
    else s
  }

  /** The value of the Java `int` whose two's complement bits are `w`. */
  function IntValue(w: bv32): (r: int)
    ensures IsInt(r)
    // the sign bit carries weight -2^31 instead of 2^31
    ensures r == w as int || r == w as int - 0x1_0000_0000
    ensures r < 0 <==> w as int >= 0x8000_0000
  {
    var u := w as int;
    if u < 0x8000_0000 then u else u - 0x1_0000_0000
  }

  /** The two's complement bits of the Java `int` `n`. */
  function IntBits(n: int): (w: bv32)
    requires IsInt(n)
    ensures IntValue(w) == n
  {
    if n >= 0 then UnsignedBits(n) else UnsignedBits(n + 0x1_0000_0000)
  }

  /** The exceptions the codec can raise. */
  datatype Exception =
    | IllegalArgument     // thrown explicitly by the capacity check
    | IndexOutOfBounds    // ArrayIndexOutOfBoundsException
    | NegativeArraySize   // NegativeArraySizeException from `new byte[n]`

  /** How a Java call ends: it returns a value or throws. */
  datatype Outcome<T> = Returned(value: T) | Threw(thrown: Exception)
}
