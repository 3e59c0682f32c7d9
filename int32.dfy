/** The C# `int`: its range and the wrap-around of unchecked arithmetic. */
module Int32 {
  const Int32Min: int := -0x8000_0000
  const Int32Max: int := 0x7FFF_FFFF

  predicate InRange(x: int)
  {
    Int32Min <= x <= Int32Max
  }

  /** The int32 value congruent to x modulo 2^32, as unchecked C# arithmetic gives it. */
  function Wrap(x: int): (r: int)
    ensures InRange(r)
    ensures (r - x) % 0x1_0000_0000 == 0
    ensures InRange(x) ==> r == x
  {
    (x - Int32Min) % 0x1_0000_0000 + Int32Min
  }
}
