/** Python's `max` and `min` of two integers. */
module Arithmetic {

  function Max(x: int, y: int): int {
    if x >= y then x else y
  }

  function Min(x: int, y: int): int {
    if x <= y then x else y
  }
}
