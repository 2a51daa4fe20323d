/** Grid coordinates: the `(x, y)` tuples of the source. */
module Positions {
  datatype Pos = Pos(x: int, y: int)

  function Abs(n: int): nat
  {
    if n < 0 then -n else n
  }

  /** Number of 4-neighbour steps between two cells on an unobstructed grid. */
  function Manhattan(a: Pos, b: Pos): nat
  {
    Abs(a.x - b.x) + Abs(a.y - b.y)
  }

  /** `b` is one of the four cells next to `a`. */
  predicate Adjacent(a: Pos, b: Pos)
  {
    Manhattan(a, b) == 1
  }
}
