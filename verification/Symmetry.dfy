/** The eight symmetries of a square image, numbered as the detector orientation
    parameter numbers them: UP, RIGHT, DOWN, LEFT, then the four mirrored ones. */
module Symmetry {

  datatype Point = Point(i: int, j: int)

  predicate InSquare(l: int, p: Point) {
    0 <= p.i < l && 0 <= p.j < l
  }

  /** The pixel of the unrotated (UP) image that orientation `o` shows at `p`. */
  function Turn(o: int, l: int, p: Point): (q: Point)
    ensures InSquare(l, p) ==> InSquare(l, q)
  {
    match o
    case 1 => Point(p.j, l - 1 - p.i)
    case 2 => Point(l - 1 - p.i, l - 1 - p.j)
    case 3 => Point(l - 1 - p.j, p.i)
    case 4 => Point(l - 1 - p.i, p.j)
    case 5 => Point(p.j, p.i)
    case 6 => Point(p.i, l - 1 - p.j)
    case 7 => Point(l - 1 - p.j, l - 1 - p.i)
    case _ => p
  }

  /** RIGHT and LEFT undo each other; every other symmetry undoes itself. */
  function Opposite(o: int): int {
    if o == 1 then 3 else if o == 3 then 1 else o
  }

  lemma TurnInverse(o: int, l: int, p: Point)
    ensures Turn(Opposite(o), l, Turn(o, l, p)) == p
    ensures Turn(o, l, Turn(Opposite(o), l, p)) == p
  {
  }
}
