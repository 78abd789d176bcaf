/** The search grid: one node of search state per tile, laid over an obstacle map. */
module SearchGrids {
  import opened Tiles
  import opened ObstacleMaps

  /** An optional value; `None` stands for the source's `null`. */
  datatype Option<T> = None | Some(value: T)

  /** A search node (main.ts:85-93). `parent` is the came-from entry: the position
      of the predecessor on the best path found so far, or `None` for `null`. */
  datatype Node = Node(x: int, y: int, f: int, g: int, h: int,
                       visited: bool, wall: bool, closed: bool, parent: Option<Coord>)

  /** The `Node[][]` grid the search updates in place, column-major (`nodes[x][y]`). */
  class SearchGrid {
    var nodes: seq<seq<Node>>

    constructor (nodes: seq<seq<Node>>)
      ensures this.nodes == nodes
    {
      this.nodes := nodes;
    }
  }

  function At(nodes: seq<seq<Node>>, c: Coord): Node
    requires InBounds(nodes, c)
  {
    nodes[c.x][c.y]
  }

  /** `nodes` with the node at `c` replaced by `n`. */
  function SetAt(nodes: seq<seq<Node>>, c: Coord, n: Node): (r: seq<seq<Node>>)
    requires InBounds(nodes, c)
    ensures |r| == |nodes| && forall x :: 0 <= x < |r| ==> |r[x]| == |nodes[x]|
    ensures forall d :: InBounds(r, d) <==> InBounds(nodes, d)
    ensures forall d :: InBounds(r, d) ==> At(r, d) == if d == c then n else At(nodes, d)
  {
    nodes[c.x := nodes[c.x][c.y := n]]
  }

  /** Writing back the node already at `c` changes nothing. */
  lemma SetAtSame(nodes: seq<seq<Node>>, c: Coord)
    requires InBounds(nodes, c)
    ensures SetAt(nodes, c, At(nodes, c)) == nodes
  {
    assert nodes[c.x][c.y := nodes[c.x][c.y]] == nodes[c.x];
  }

  /** The wall flags of a grid, as an obstacle map. */
  ghost function WallMap(nodes: seq<seq<Node>>): (m: seq<seq<bool>>)
    ensures |m| == |nodes| && forall x :: 0 <= x < |m| ==> |m[x]| == |nodes[x]|
    ensures forall c :: InBounds(m, c) <==> InBounds(nodes, c)
    ensures forall c :: InBounds(m, c) ==> m[c.x][c.y] == At(nodes, c).wall
  {
    seq(|nodes|, i requires 0 <= i < |nodes| => seq(|nodes[i]|, j requires 0 <= j < |nodes[i]| => nodes[i][j].wall))
  }

  /** Every node as `createGrid` leaves it: at its own position, costs zero, not
      visited, not closed, no parent. */
  ghost predicate Pristine(nodes: seq<seq<Node>>)
  {
    forall c :: InBounds(nodes, c) ==> At(nodes, c) == Node(c.x, c.y, 0, 0, 0, false, At(nodes, c).wall, false, None)
  }

  /** createGrid: a node for every entry of the obstacle map, with that entry as its
      wall flag and fresh search state. */
  method CreateGrid(obstacleMap: seq<seq<bool>>) returns (grid: SearchGrid)
    ensures fresh(grid)
    ensures WallMap(grid.nodes) == obstacleMap
    ensures Pristine(grid.nodes)
  {
    var columns: seq<seq<Node>> := [];
    for i := 0 to |obstacleMap|
      invariant |columns| == i
      invariant forall k :: 0 <= k < i ==> |columns[k]| == |obstacleMap[k]|
      invariant forall c :: InBounds(columns, c) ==>
        At(columns, c) == Node(c.x, c.y, 0, 0, 0, false, obstacleMap[c.x][c.y], false, None)
    {
      var gridList: seq<Node> := [];
      for j := 0 to |obstacleMap[i]|
        invariant |gridList| == j
        invariant forall k :: 0 <= k < j ==> gridList[k] == Node(i, k, 0, 0, 0, false, obstacleMap[i][k], false, None)
      {
        gridList := gridList + [Node(i, j, 0, 0, 0, false, obstacleMap[i][j], false, None)];
      }
      columns := columns + [gridList];
    }
    grid := new SearchGrid(columns);
    var walls := WallMap(columns);
    forall i | 0 <= i < |walls|
      ensures walls[i] == obstacleMap[i]
    {
      forall j | 0 <= j < |walls[i]|
        ensures walls[i][j] == obstacleMap[i][j]
      {
        assert InBounds(walls, Coord(i, j));
      }
    }
  }

  /** The order in which `getNeighbors` lists the tiles around `from`: west, east,
      north, south. */
  function Direction(from: Coord, to: Coord): int
  {
    if to == Coord(from.x - 1, from.y) then 0
    else if to == Coord(from.x + 1, from.y) then 1
    else if to == Coord(from.x, from.y - 1) then 2
    else 3
  }

  /** One test of getNeighbors: `[c]` when `c` is a grid position, else nothing. */
  function Candidate(nodes: seq<seq<Node>>, c: Coord): seq<Coord>
  {
    if InBounds(nodes, c) then [c] else []
  }

  /** getNeighbors: the positions of the grid nodes 4-adjacent to `element`, each
      once, in the order west, east, north, south; a position outside the grid
      (including one in a column shorter than its neighbour) is left out. */
  function Neighbors(nodes: seq<seq<Node>>, element: Coord): (r: seq<Coord>)
    ensures |r| <= 4
    ensures forall i :: 0 <= i < |r| ==> InBounds(nodes, r[i]) && Adjacent(element, r[i])
    ensures forall c :: InBounds(nodes, c) && Adjacent(element, c) ==> c in r
  {
    var x, y := element.x, element.y;
    var west, east, north, south := Coord(x - 1, y), Coord(x + 1, y), Coord(x, y - 1), Coord(x, y + 1);
    assert forall c :: Adjacent(element, c) ==> c == west || c == east || c == north || c == south;
    NeighborList(nodes, element)
  }

  /** The tests of getNeighbors, in order: west, east, north, south. */
  function NeighborList(nodes: seq<seq<Node>>, element: Coord): seq<Coord>
  {
    var x, y := element.x, element.y;
    Candidate(nodes, Coord(x - 1, y)) + Candidate(nodes, Coord(x + 1, y))
      + Candidate(nodes, Coord(x, y - 1)) + Candidate(nodes, Coord(x, y + 1))
  }

  /** getNeighbors lists the positions in the order west, east, north, south, so no
      position comes twice. */
  lemma NeighborsInDirectionOrder(nodes: seq<seq<Node>>, element: Coord)
    ensures var r := Neighbors(nodes, element);
      forall i, j :: 0 <= i < j < |r| ==> Direction(element, r[i]) < Direction(element, r[j])
  {
    NeighborListInDirectionOrder(nodes, element);
    assert Neighbors(nodes, element) == NeighborList(nodes, element);
  }

  /** The four tests come in direction order. */
  lemma NeighborListInDirectionOrder(nodes: seq<seq<Node>>, element: Coord)
    ensures var r := NeighborList(nodes, element);
      forall i, j :: 0 <= i < j < |r| ==> Direction(element, r[i]) < Direction(element, r[j])
  {
    var x, y := element.x, element.y;
    var west, east, north, south := Coord(x - 1, y), Coord(x + 1, y), Coord(x, y - 1), Coord(x, y + 1);
    var s1 := [] + Candidate(nodes, west);
    var s2 := s1 + Candidate(nodes, east);
    var s3 := s2 + Candidate(nodes, north);
    assert NeighborList(nodes, element) == s3 + Candidate(nodes, south);
    AppendInOrder(nodes, element, [], west);
    AppendInOrder(nodes, element, s1, east);
    AppendInOrder(nodes, element, s2, north);
    AppendInOrder(nodes, element, s3, south);
  }

  /** Appending one candidate whose direction comes after every direction so far
      keeps a list of positions in direction order, with no direction past the
      candidate's. */
  lemma AppendInOrder(nodes: seq<seq<Node>>, element: Coord, s: seq<Coord>, c: Coord)
    requires forall i, j :: 0 <= i < j < |s| ==> Direction(element, s[i]) < Direction(element, s[j])
    requires forall i :: 0 <= i < |s| ==> Direction(element, s[i]) < Direction(element, c)
    ensures var r := s + Candidate(nodes, c);
      forall i, j :: 0 <= i < j < |r| ==> Direction(element, r[i]) < Direction(element, r[j])
    ensures var r := s + Candidate(nodes, c);
      forall i :: 0 <= i < |r| ==> Direction(element, r[i]) <= Direction(element, c)
  {
  }
}
