// Go's 64-bit integers.
module Int64 {

  const MAX_INT64: int := 0x7FFF_FFFF_FFFF_FFFF

  predicate InInt64(x: int) {
    -MAX_INT64 - 1 <= x <= MAX_INT64
  }

  // The conversion to int64, and so int64 arithmetic, wraps round.
  function ToInt64(x: int): (r: int)
    ensures InInt64(r) && (InInt64(x) ==> r == x)
    ensures (r - x) % 0x1_0000_0000_0000_0000 == 0
  {
    (x + 0x8000_0000_0000_0000) % 0x1_0000_0000_0000_0000 - 0x8000_0000_0000_0000
  }
}
