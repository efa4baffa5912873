/**
 * The six movement directions of the maze.  Each has a numeric code (its
 * position in a cell's flag string), a one-letter label (the text written on
 * an edge and in a path) and a coordinate offset.
 */
module Directions {
  import opened Wrappers
  import opened Grid

  datatype Direction = North | East | South | West | Up | Down

  /** The enumeration value of a direction, which is also its flag position. */
  function Code(d: Direction): (n: nat)
    ensures n < 6
  {
    match d
    case North => 0
    case East => 1
    case South => 2
    case West => 3
    case Up => 4
    case Down => 5
  }

  /** The direction whose code is `n`, if any: the `switch` over flag positions. */
  function FromCode(n: int): (r: Option<Direction>)
    ensures r.Some? <==> 0 <= n < 6
    ensures r.Some? ==> Code(r.value) == n
  {
    if n == 0 then Some(North)
    else if n == 1 then Some(East)
    else if n == 2 then Some(South)
    else if n == 3 then Some(West)
    else if n == 4 then Some(Up)
    else if n == 5 then Some(Down)
    else None
  }

  /** The character an edge in direction `d` carries. */
  function Letter(d: Direction): (ch: char)
    ensures ch in "NESWUD" && ch != ' '
  {
    match d
    case North => 'N'
    case East => 'E'
    case South => 'S'
    case West => 'W'
    case Up => 'U'
    case Down => 'D'
  }

  /** Reads a direction letter back. */
  function FromLetter(ch: char): (r: Option<Direction>)
    ensures r.Some? <==> ch in "NESWUD"
    ensures r.Some? ==> Letter(r.value) == ch
  {
    if ch == 'N' then Some(North)
    else if ch == 'E' then Some(East)
    else if ch == 'S' then Some(South)
    else if ch == 'W' then Some(West)
    else if ch == 'U' then Some(Up)
    else if ch == 'D' then Some(Down)
    else None
  }

  /** The cell one step away from `c` in direction `d`: north and south move
      along rows, east and west along columns, up and down between levels. */
  function Neighbour(c: Coord, d: Direction): (n: Coord)
    ensures Steps(c, n) == 1
    // north/south change only the row, east/west only the column, up/down only the level
    ensures n.level != c.level <==> d == Up || d == Down
    ensures n.row != c.row <==> d == North || d == South
    ensures n.col != c.col <==> d == East || d == West
  {
    match d
    case North => Coord(c.level, c.row - 1, c.col)
    case East => Coord(c.level, c.row, c.col + 1)
    case South => Coord(c.level, c.row + 1, c.col)
    case West => Coord(c.level, c.row, c.col - 1)
    case Up => Coord(c.level + 1, c.row, c.col)
    case Down => Coord(c.level - 1, c.row, c.col)
  }

  function Abs(x: int): nat {
    if x < 0 then -x else x
  }

  /** The number of unit moves between two coordinates along the grid axes. */
  function Steps(a: Coord, b: Coord): nat {
    Abs(a.level - b.level) + Abs(a.row - b.row) + Abs(a.col - b.col)
  }

  /** The direction that undoes a move. */
  function Opposite(d: Direction): Direction {
    match d
    case North => South
    case East => West
    case South => North
    case West => East
    case Up => Down
    case Down => Up
  }

  /** Moving in a direction and then in its opposite returns to the start. */
  lemma NeighbourOpposite(c: Coord, d: Direction)
    ensures Opposite(d) != d && Opposite(Opposite(d)) == d
    ensures Neighbour(Neighbour(c, d), Opposite(d)) == c
  {
  }

  /** The codes are the six dense values 0..5, one per direction. */
  lemma CodeRoundTrip(d: Direction)
    ensures FromCode(Code(d)) == Some(d)
  {
  }

  /** Letters identify directions. */
  lemma LetterRoundTrip(d: Direction)
    ensures FromLetter(Letter(d)) == Some(d)
  {
  }

  /** Every move changes exactly one coordinate by exactly one, so different
      directions from the same cell reach different cells. */
  lemma NeighbourDistinct(c: Coord, d1: Direction, d2: Direction)
    ensures Neighbour(c, d1) == Neighbour(c, d2) <==> d1 == d2
  {
  }
}
