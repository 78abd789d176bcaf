/** Tile coordinates and the distances between them. */
module Tiles {

  /** A tile position: column x, row y (main.ts:95-98). */
  datatype Coord = Coord(x: int, y: int)

  function Abs(n: int): (r: nat)
    ensures r == n || r == -n
  {
    if n < 0 then -n else n
  }

  /** The tile holding pixel coordinate `p`: the source's `p >> 4`, an arithmetic
      shift, which for the integers it is applied to is floor division by 16. */
  function TileOf(p: int): (t: int)
    ensures 16 * t <= p < 16 * t + 16
  {
    p / 16
  }

  /** manhattanDistance: the heuristic of the search. */
  function ManhattanDistance(current: Coord, target: Coord): (d: nat)
    ensures d == 0 <==> current == target
  {
    Abs(target.x - current.x) + Abs(target.y - current.y)
  }

  /** Two tiles are 4-adjacent when they differ by one step along exactly one axis. */
  predicate Adjacent(a: Coord, b: Coord)
  {
    ManhattanDistance(a, b) == 1
  }

  lemma ManhattanSymmetric(a: Coord, b: Coord)
    ensures ManhattanDistance(a, b) == ManhattanDistance(b, a)
  {
  }

  lemma ManhattanTriangle(a: Coord, b: Coord, c: Coord)
    ensures ManhattanDistance(a, c) <= ManhattanDistance(a, b) + ManhattanDistance(b, c)
  {
  }

  /** The four tiles adjacent to `a` are exactly the ones one step west, east, north or south. */
  lemma AdjacentCases(a: Coord, b: Coord)
    ensures Adjacent(a, b) <==>
      b == Coord(a.x - 1, a.y) || b == Coord(a.x + 1, a.y) ||
      b == Coord(a.x, a.y - 1) || b == Coord(a.x, a.y + 1)
  {
  }
}
