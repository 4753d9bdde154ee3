/**
  An immutable two-dimensional vector with integer coordinates.

  `Plus` and `Minus` are component-wise and build a new vector; a datatype
  value cannot be changed, so neither operand is affected by either operation.
 */
module Vectors {

  datatype Vec = Vec(x: int, y: int)

  /** `plus`: component-wise sum; subtracting the argument again gives back the receiver. */
  function Plus(v: Vec, w: Vec): (r: Vec)
    ensures r.x == v.x + w.x && r.y == v.y + w.y
    ensures Minus(r, w) == v
  {
    Vec(v.x + w.x, v.y + w.y)
  }

  /** `minus`: component-wise difference, receiver minus argument. */
  function Minus(v: Vec, w: Vec): (r: Vec)
    ensures r.x == v.x - w.x && r.y == v.y - w.y
  {
    Vec(v.x - w.x, v.y - w.y)
  }

  /** Adding back what was subtracted restores the receiver. */
  lemma PlusUndoesMinus(v: Vec, w: Vec)
    ensures Plus(Minus(v, w), w) == v
  {
  }

  /** The demonstration: `(1, 2) + (2, 3)` and `(1, 2) - (2, 3)`. */
  lemma Demo()
    ensures Plus(Vec(1, 2), Vec(2, 3)) == Vec(3, 5)
    ensures Minus(Vec(1, 2), Vec(2, 3)) == Vec(-1, -1)
  {
  }
}
