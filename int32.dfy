/** C#'s `int`: a 32-bit two's-complement integer whose arithmetic wraps
    around in an unchecked context, which is the default. */
module Int32 {

  const Int32Min := -0x8000_0000
  const Int32Max := 0x7FFF_FFFF
  const Modulus := 0x1_0000_0000

  predicate InRange(x: int) {
    Int32Min <= x <= Int32Max
  }

  /** The `int` an unchecked operation yields for the exact result `x`: the
      one value in range that agrees with `x` modulo 2^32. */
  function Wrap(x: int): (r: int)
    ensures InRange(r)
    ensures (x - r) % Modulus == 0
    ensures InRange(x) ==> r == x
  {
    var m := (x - Int32Min) % Modulus;
    assert InRange(x) ==> m == x - Int32Min;
    m + Int32Min
  }
}
