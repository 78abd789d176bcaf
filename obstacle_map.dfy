/** The obstacle map: a column-major snapshot of which tiles are blocked. */
module ObstacleMaps {
  import opened Tiles

  /** What the search needs of the scene's tile map: its pixel extent and the
      per-tile obstacle query. */
  datatype TileMap = TileMap(areaWidth: nat, areaHeight: nat, isObstacle: (int, int) -> bool)

  /** Number of tile columns, `areaWidth >> 4`. */
  function Columns(tiles: TileMap): nat
  {
    tiles.areaWidth / 16
  }

  /** Number of tile rows, `areaHeight >> 4`. */
  function Rows(tiles: TileMap): nat
  {
    tiles.areaHeight / 16
  }

  /** `c` indexes an element of the column-major table `table[x][y]`; columns may
      differ in length, as the source's nested arrays may. */
  predicate InBounds<T>(table: seq<seq<T>>, c: Coord)
  {
    0 <= c.x < |table| && 0 <= c.y < |table[c.x]|
  }

  /** A tile the agent may enter: inside the map and not blocked. */
  predicate Passable(obstacleMap: seq<seq<bool>>, c: Coord)
  {
    InBounds(obstacleMap, c) && !obstacleMap[c.x][c.y]
  }

  /** The obstacle map of `tiles`, as a value. */
  ghost function Snapshot(tiles: TileMap): seq<seq<bool>>
  {
    seq(Columns(tiles), i => seq(Rows(tiles), j => tiles.isObstacle(i, j)))
  }

  /** createObstacleMap: one column per tile column, one entry per tile row, each
      entry the tile map's answer for that tile. `queries` records the tiles the
      tile map was asked about, in order: every tile exactly once. */
  method CreateObstacleMap(tiles: TileMap) returns (obstacleMap: seq<seq<bool>>, ghost queries: seq<Coord>)
    ensures |obstacleMap| == Columns(tiles)
    ensures forall i :: 0 <= i < |obstacleMap| ==> |obstacleMap[i]| == Rows(tiles)
    ensures forall c :: InBounds(obstacleMap, c) ==> obstacleMap[c.x][c.y] == tiles.isObstacle(c.x, c.y)
    ensures forall a, b :: 0 <= a < b < |queries| ==> queries[a] != queries[b]
    ensures forall c :: c in queries <==> InBounds(obstacleMap, c)
  {
    var tileWidthCount := Columns(tiles);
    var tileHeightCount := Rows(tiles);
    obstacleMap := [];
    queries := [];
    for i := 0 to tileWidthCount
      invariant |obstacleMap| == i
      invariant forall k :: 0 <= k < i ==> |obstacleMap[k]| == tileHeightCount
      invariant forall c :: InBounds(obstacleMap, c) ==> obstacleMap[c.x][c.y] == tiles.isObstacle(c.x, c.y)
      invariant forall a, b :: 0 <= a < b < |queries| ==> queries[a] != queries[b]
      invariant forall c :: c in queries <==> 0 <= c.x < i && 0 <= c.y < tileHeightCount
    {
      var innerObstacleArray: seq<bool> := [];
      for j := 0 to tileHeightCount
        invariant |innerObstacleArray| == j
        invariant forall k :: 0 <= k < j ==> innerObstacleArray[k] == tiles.isObstacle(i, k)
        invariant forall a, b :: 0 <= a < b < |queries| ==> queries[a] != queries[b]
        invariant forall c :: c in queries <==>
          (0 <= c.x < i && 0 <= c.y < tileHeightCount) || (c.x == i && 0 <= c.y < j)
      {
        innerObstacleArray := innerObstacleArray + [tiles.isObstacle(i, j)];
        queries := queries + [Coord(i, j)];
      }
      obstacleMap := obstacleMap + [innerObstacleArray];
    }
  }

  /** The map `CreateObstacleMap` builds is the snapshot of the tile map. */
  lemma {:induction false} SnapshotOfCreated(tiles: TileMap, obstacleMap: seq<seq<bool>>)
    requires |obstacleMap| == Columns(tiles)
    requires forall i :: 0 <= i < |obstacleMap| ==> |obstacleMap[i]| == Rows(tiles)
    requires forall c :: InBounds(obstacleMap, c) ==> obstacleMap[c.x][c.y] == tiles.isObstacle(c.x, c.y)
    ensures obstacleMap == Snapshot(tiles)
  {
    var s := Snapshot(tiles);
    forall i | 0 <= i < |obstacleMap|
      ensures obstacleMap[i] == s[i]
    {
      forall j | 0 <= j < |obstacleMap[i]|
        ensures obstacleMap[i][j] == s[i][j]
      {
        assert InBounds(obstacleMap, Coord(i, j));
      }
    }
  }
}
