// The four headings of the planar layout, numbered counter-clockwise.

module Directions {

  datatype Direction = East | North | West | South

  /** The enum value of a heading: EAST = 0, NORTH = 1, WEST = 2, SOUTH = 3. */
  function Index(d: Direction): (i: nat)
    ensures i < 4
  {
    match d
    case East => 0
    case North => 1
    case West => 2
    case South => 3
  }

  function FromIndex(i: nat): (d: Direction)
    requires i < 4
    ensures Index(d) == i
  {
    if i == 0 then East else if i == 1 then North else if i == 2 then West else South
  }

  lemma IndexRoundTrip(d: Direction)
    ensures FromIndex(Index(d)) == d
  {
  }

  /** The heading reached by turning `d` half a turn; the source writes it
      as `(2 + d) % 4`. */
  function Opposite(d: Direction): (o: Direction)
    ensures Index(o) == (Index(d) + 2) % 4
    ensures o != d
  {
    match d
    case East => West
    case North => South
    case West => East
    case South => North
  }

  lemma OppositeInvolution(d: Direction)
    ensures Opposite(Opposite(d)) == d
  {
  }

  /** The headings in enum order, as the source's `for(i = 0; i < 4; ...)` loops visit them. */
  const AllDirections: seq<Direction> := [East, North, West, South]

  lemma AllDirectionsComplete(d: Direction)
    ensures AllDirections[Index(d)] == d
  {
  }
}
