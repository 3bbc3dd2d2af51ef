/** Grid positions and unit displacements (the `Vector` struct of the game).
    The x axis runs left to right and the y axis top to bottom, so "up" is
    a negative y step. */
module Geometry {

  /** A cell of the field or a displacement between two cells. */
  datatype Vector = Vector(x: int, y: int)

  const Zero := Vector(0, 0)
  const Up := Vector(0, -1)
  const Down := Vector(0, 1)
  const Left := Vector(-1, 0)
  const Right := Vector(1, 0)

  /** Component-wise sum (`operator+`). */
  function Add(a: Vector, b: Vector): Vector {
    Vector(a.x + b.x, a.y + b.y)
  }

  /** Component-wise difference, the inverse of `Add`. */
  function Sub(a: Vector, b: Vector): Vector {
    Vector(a.x - b.x, a.y - b.y)
  }

  /** The opposite displacement. */
  function Neg(a: Vector): Vector {
    Vector(-a.x, -a.y)
  }

  /** `operator==`: the coordinate-wise comparison is exactly value equality. */
  predicate Equal(a: Vector, b: Vector)
    ensures Equal(a, b) <==> a == b
  {
    a.x == b.x && a.y == b.y
  }

  /** `operator!=`: written coordinate-wise, it is exactly the negation of `operator==`. */
  predicate NotEqual(a: Vector, b: Vector)
    ensures NotEqual(a, b) <==> !Equal(a, b)
  {
    a.x != b.x || a.y != b.y
  }

  /** One of the four directions the snake can travel in. */
  predicate IsUnit(d: Vector) {
    d == Up || d == Down || d == Left || d == Right
  }

  /** Subtracting either summand of `operator+` recovers the other, and adding
      a difference back restores the minuend. */
  lemma AddSubInverse(a: Vector, b: Vector)
    ensures Sub(Add(a, b), b) == a
    ensures Sub(Add(a, b), a) == b
    ensures Add(Sub(a, b), b) == a
  {
  }

  /** Two displacements cancel out exactly when one is the reverse of the other;
      this is what turns the `last_delta + candidate != (0,0)` guard into
      "no 180-degree turn". */
  lemma CancelIffReverse(a: Vector, b: Vector)
    ensures Add(a, b) == Zero <==> b == Neg(a)
  {
  }

  /** A unit step never equals its own reverse, so a direction is never
      forbidden by itself. */
  lemma UnitNotSelfReverse(d: Vector)
    requires IsUnit(d)
    ensures d != Neg(d)
    ensures Add(d, d) != Zero
  {
  }
}
