// Coord2dPosition: the integer lattice coordinates of the spanning-tree
// layout.  The source stores doubles, but every value it ever holds is a
// sum of unit steps, so the model keeps integers.

module Coord2dPosition {
  import opened Directions

  datatype Coord2d = Coord2d(x: int, y: int)

  /** The default constructor: the origin. */
  function Origin(): (p: Coord2d)
    ensures p.x == 0 && p.y == 0
  {
    Coord2d(0, 0)
  }

  /** The unit step in heading `d`. */
  function DeltaByDirection(d: Direction): Coord2d
  {
    match d
    case East => Coord2d(1, 0)
    case North => Coord2d(0, 1)
    case West => Coord2d(-1, 0)
    case South => Coord2d(0, -1)
  }

  function Add(p: Coord2d, q: Coord2d): Coord2d
  {
    Coord2d(p.x + q.x, p.y + q.y)
  }

  function Sub(p: Coord2d, q: Coord2d): Coord2d
  {
    Coord2d(p.x - q.x, p.y - q.y)
  }

  /** `same` compares within 1e-7; on integer coordinates that is equality. */
  predicate Same(p: Coord2d, q: Coord2d)
  {
    -1 < p.x - q.x < 1 && -1 < p.y - q.y < 1
  }

  lemma SameIsEquality(p: Coord2d, q: Coord2d)
    ensures Same(p, q) <==> p == q
  {
  }

  /** Subtraction undoes addition. */
  lemma AddSubRoundTrip(p: Coord2d, q: Coord2d)
    ensures Sub(Add(p, q), q) == p
    ensures Add(Sub(p, q), q) == p
  {
  }

  /** A unit step is a unit vector along one axis, and opposite headings
      cancel. */
  lemma DeltaProperties(d: Direction)
    ensures var u := DeltaByDirection(d); (u.x == 0) != (u.y == 0)
    ensures var u := DeltaByDirection(d); u.x * u.x + u.y * u.y == 1
    ensures Add(DeltaByDirection(d), DeltaByDirection(Opposite(d))) == Origin()
  {
  }

  /** Distinct headings give distinct steps. */
  lemma DeltaInjective(d: Direction, e: Direction)
    requires DeltaByDirection(d) == DeltaByDirection(e)
    ensures d == e
  {
  }

  /** `dot` as written: `return pos1.x * pos2.x, pos1.y * pos2.y;` is a comma
      expression, so the first product is discarded. */
  function DotAsWritten(p: Coord2d, q: Coord2d): int
  {
    p.y * q.y
  }

  /** The evidently intended dot product. */
  function Dot(p: Coord2d, q: Coord2d): int
  {
    p.x * q.x + p.y * q.y
  }

  /** The written `dot` disagrees with the dot product on an east step. */
  lemma DotAsWrittenDropsX()
    ensures DotAsWritten(DeltaByDirection(East), DeltaByDirection(East)) == 0
    ensures Dot(DeltaByDirection(East), DeltaByDirection(East)) == 1
  {
  }

  /** The intended dot product is symmetric. */
  lemma DotSymmetric(p: Coord2d, q: Coord2d)
    ensures Dot(p, q) == Dot(q, p)
  {
  }

  /** On unit steps the intended dot product is 1 for equal headings, -1
      for opposite ones and 0 for perpendicular ones. */
  lemma DotOfSteps(d: Direction, e: Direction)
    ensures Dot(DeltaByDirection(d), DeltaByDirection(e)) ==
      (if d == e then 1 else if e == Opposite(d) then -1 else 0)
  {
    match d {
      case East => match e { case East => {} case North => {} case West => {} case South => {} }
      case North => match e { case East => {} case North => {} case West => {} case South => {} }
      case West => match e { case East => {} case North => {} case West => {} case South => {} }
      case South => match e { case East => {} case North => {} case West => {} case South => {} }
    }
  }
}
