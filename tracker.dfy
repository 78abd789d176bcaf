/** One tick of `spriteTrackTargetSprite`: the follower is sent one tile along a
    shortest walk towards the tile of the sprite it tracks. */
module Tracker {
  import opened Tiles
  import opened ObstacleMaps
  import opened Paths
  import opened SearchGrids
  import opened PathFinder

  /** The sprite fields a tick reads or writes: pixel position, velocity and
      acceleration. */
  class Sprite {
    var left: int
    var top: int
    var vx: int
    var vy: int
    var ax: int
    var ay: int

    constructor (left: int, top: int)
      ensures this.left == left && this.top == top
      ensures vx == 0 && vy == 0 && ax == 0 && ay == 0
    {
      this.left := left;
      this.top := top;
      vx, vy, ax, ay := 0, 0, 0, 0;
    }
  }

  /** What one tick did. */
  datatype TickOutcome =
    | SameTile           // already on the target's tile: nothing is written
    | OffGrid            // the follower's tile is outside the map: the search fails before any write
    | NoPath             // the target's tile cannot be reached: the follower is stopped
    | Step(next: Coord)  // the follower heads for `next`

  /** The tile under a sprite's top-left corner. */
  function TileAt(left: int, top: int): (c: Coord)
    ensures 16 * c.x <= left < 16 * c.x + 16 && 16 * c.y <= top < 16 * c.y + 16
  {
    Coord(TileOf(left), TileOf(top))
  }

  /** The velocity towards `next` from `here`, `speed` pixels per second along each
      axis on which the tiles differ. Towards an adjacent tile it moves along exactly
      one axis, at `speed`. */
  function Heading(here: Coord, next: Coord, speed: int): (v: (int, int))
    ensures Adjacent(here, next) ==> Abs(v.0) + Abs(v.1) == Abs(speed)
    ensures Adjacent(here, next) ==> v.0 == 0 || v.1 == 0
    ensures here == next ==> v == (0, 0)
  {
    AdjacentCases(here, next);
    ((next.x - here.x) * speed, (next.y - here.y) * speed)
  }

  /** `next` is where a shortest walk from `here` to `there` goes first. */
  ghost predicate FirstStepOfShortest(obstacleMap: seq<seq<bool>>, here: Coord, there: Coord, next: Coord)
  {
    exists p :: ShortestPath(obstacleMap, here, there, p) && p != [] && p[0] == next
  }

  /** The first step of a walk is a passable tile next to where it starts. */
  lemma FirstStepAdjacent(obstacleMap: seq<seq<bool>>, here: Coord, there: Coord, next: Coord)
    requires FirstStepOfShortest(obstacleMap, here, there, next)
    ensures Adjacent(here, next) && Passable(obstacleMap, next)
  {
    var p :| ShortestPath(obstacleMap, here, there, p) && p != [] && p[0] == next;
    PathStep(obstacleMap, here, p, 0);
  }

  /** `aStar(createGrid(obstacleMap), start, target)`: the search on a fresh grid. It
      finds nothing exactly when the target is the start or cannot be reached, and
      otherwise a walk whose first tile begins a shortest walk. */
  method SearchFrom(obstacleMap: seq<seq<bool>>, start: Coord, target: Coord) returns (path: seq<Coord>)
    requires InBounds(obstacleMap, start)
    ensures path == [] <==> start == target || !Reachable(obstacleMap, start, target)
    ensures path != [] ==> ShortestPath(obstacleMap, start, target, path)
    ensures path != [] ==> FirstStepOfShortest(obstacleMap, start, target, path[0])
  {
    var grid := CreateGrid(obstacleMap);
    path := AStar(grid, start, target);
  }

  /** One tick. The follower's and the target's tiles are compared; when they differ,
      the search runs on a fresh grid over the current obstacle map. With no walk the
      follower's velocity and acceleration are zeroed; otherwise its velocity points
      at the first tile of a shortest walk and its acceleration is left alone. */
  method TrackTick(sprite: Sprite, targetSprite: Sprite, speed: int, tiles: TileMap) returns (outcome: TickOutcome)
    modifies sprite
    ensures var here := TileAt(old(sprite.left), old(sprite.top));
            var there := TileAt(old(targetSprite.left), old(targetSprite.top));
            var m := Snapshot(tiles);
            && (outcome == SameTile <==> here == there)
            && (outcome == OffGrid <==> here != there && !InBounds(m, here))
            && (outcome == NoPath <==> here != there && InBounds(m, here) && !Reachable(m, here, there))
            && (outcome.Step? ==> FirstStepOfShortest(m, here, there, outcome.next))
            && (outcome.Step? ==> (sprite.vx, sprite.vy) == Heading(here, outcome.next, speed))
    ensures outcome == SameTile || outcome == OffGrid ==> unchanged(sprite)
    ensures outcome == NoPath ==>
      && sprite.vx == 0 && sprite.vy == 0 && sprite.ax == 0 && sprite.ay == 0
      && sprite.left == old(sprite.left) && sprite.top == old(sprite.top)
    ensures outcome.Step? ==>
      && sprite.ax == old(sprite.ax) && sprite.ay == old(sprite.ay)
      && sprite.left == old(sprite.left) && sprite.top == old(sprite.top)
  {
    ghost var here := TileAt(sprite.left, sprite.top);
    ghost var there := TileAt(targetSprite.left, targetSprite.top);
    var obstacleMap;
    ghost var queries;
    obstacleMap, queries := CreateObstacleMap(tiles);
    SnapshotOfCreated(tiles, obstacleMap);

    var followSpriteTileX := TileOf(sprite.left);
    var followSpriteTileY := TileOf(sprite.top);
    var targetSpriteX := TileOf(targetSprite.left);
    var targetSpriteY := TileOf(targetSprite.top);
    if followSpriteTileX == targetSpriteX && followSpriteTileY == targetSpriteY {
      return SameTile;
    }

    var start := Coord(followSpriteTileX, followSpriteTileY);
    var target := Coord(targetSpriteX, targetSpriteY);
    assert start == here && target == there;
    if !InBounds(obstacleMap, start) {
      // grid[x][y] is undefined here: the search throws before anything is written.
      return OffGrid;
    }
    var path := SearchFrom(obstacleMap, start, target);

    if |path| == 0 {
      sprite.vx := 0;
      sprite.vy := 0;
      sprite.ax := 0;
      sprite.ay := 0;
      return NoPath;
    }

    var nextTile := path[0];
    var velocity := Heading(start, nextTile, speed);
    sprite.vx := velocity.0;
    sprite.vy := velocity.1;
    outcome := Step(nextTile);
  }
}
