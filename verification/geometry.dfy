/** Terminal cell coordinates and the integer arithmetic the layout code uses. */
module Geometry {

  /** A terminal cell: column x, row y, both 1-based as the terminal counts them. */
  datatype Point = Point(x: int, y: int)

  function Max(a: int, b: int): int {
    if a >= b then a else b
  }

  function Min(a: int, b: int): int {
    if a <= b then a else b
  }

  /**
   * Python's `math.ceil(a / 2)`. Dafny's `/` with a positive divisor rounds
   * down, which is what `math.floor(a / 2)` computes, so only the ceiling
   * needs a definition of its own.
   */
  function CeilHalf(a: int): (r: int)
    ensures 2 * r - 1 <= a <= 2 * r
  {
    (a + 1) / 2
  }
}
