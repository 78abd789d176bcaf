/** Walks over an obstacle map: the reference against which the search is judged. */
module Paths {
  import opened Tiles
  import opened ObstacleMaps

  /** Where a walk that leaves `from` and visits the tiles of `p` in order ends. */
  function End(from: Coord, p: seq<Coord>): Coord
  {
    if p == [] then from else p[|p| - 1]
  }

  /** `p` is a walk out of `from` (which it does not contain): every step is to a
      4-adjacent tile, and every tile stepped on is passable. */
  predicate IsPath(obstacleMap: seq<seq<bool>>, from: Coord, p: seq<Coord>)
    decreases |p|
  {
    p == [] || (Adjacent(from, p[0]) && Passable(obstacleMap, p[0]) && IsPath(obstacleMap, p[0], p[1..]))
  }

  ghost predicate Reachable(obstacleMap: seq<seq<bool>>, from: Coord, to: Coord)
  {
    exists p :: IsPath(obstacleMap, from, p) && End(from, p) == to
  }

  /** `p` is a walk from `from` to `to` no longer than any other. */
  ghost predicate ShortestPath(obstacleMap: seq<seq<bool>>, from: Coord, to: Coord, p: seq<Coord>)
  {
    && IsPath(obstacleMap, from, p)
    && End(from, p) == to
    && forall q :: IsPath(obstacleMap, from, q) && End(from, q) == to ==> |p| <= |q|
  }

  /** The first `i` steps of a walk are a walk, ending at its `i`-th tile. */
  lemma {:induction false} PathPrefix(obstacleMap: seq<seq<bool>>, from: Coord, p: seq<Coord>, i: nat)
    requires IsPath(obstacleMap, from, p)
    requires i <= |p|
    ensures IsPath(obstacleMap, from, p[..i])
    ensures End(from, p[..i]) == if i == 0 then from else p[i - 1]
    decreases i
  {
    if i > 0 {
      PathPrefix(obstacleMap, p[0], p[1..], i - 1);
      assert p[..i][1..] == p[1..][..i - 1];
    }
  }

  /** What follows the `i`-th tile of a walk is a walk from that tile, with the same end. */
  lemma {:induction false} PathSuffix(obstacleMap: seq<seq<bool>>, from: Coord, p: seq<Coord>, i: nat)
    requires IsPath(obstacleMap, from, p)
    requires i < |p|
    ensures IsPath(obstacleMap, p[i], p[i + 1..])
    ensures End(p[i], p[i + 1..]) == End(from, p)
    decreases i
  {
    if i > 0 {
      PathSuffix(obstacleMap, p[0], p[1..], i - 1);
      assert p[1..][i..] == p[i + 1..];
    }
  }

  /** Each step of a walk goes to a passable tile adjacent to the one before it. */
  lemma {:induction false} PathStep(obstacleMap: seq<seq<bool>>, from: Coord, p: seq<Coord>, k: nat)
    requires IsPath(obstacleMap, from, p)
    requires k < |p|
    ensures Passable(obstacleMap, p[k])
    ensures Adjacent(if k == 0 then from else p[k - 1], p[k])
    decreases k
  {
    if k > 0 {
      PathStep(obstacleMap, p[0], p[1..], k - 1);
    }
  }

  /** No walk is shorter than the Manhattan distance between its ends. */
  lemma {:induction false} PathLengthBound(obstacleMap: seq<seq<bool>>, from: Coord, p: seq<Coord>)
    requires IsPath(obstacleMap, from, p)
    ensures ManhattanDistance(from, End(from, p)) <= |p|
    decreases |p|
  {
    if p != [] {
      PathLengthBound(obstacleMap, p[0], p[1..]);
      assert End(p[0], p[1..]) == End(from, p);
      ManhattanTriangle(from, p[0], End(from, p));
    }
  }

  /** A walk that starts inside a region closed under passable steps stays inside it. */
  lemma {:induction false} PathStaysInRegion(obstacleMap: seq<seq<bool>>, region: set<Coord>, from: Coord, p: seq<Coord>)
    requires from in region
    requires forall c, n :: c in region && Adjacent(c, n) && Passable(obstacleMap, n) ==> n in region
    requires IsPath(obstacleMap, from, p)
    ensures End(from, p) in region
    decreases |p|
  {
    if p != [] {
      PathStaysInRegion(obstacleMap, region, p[0], p[1..]);
      assert End(p[0], p[1..]) == End(from, p);
    }
  }

  /** A tile outside such a region cannot be reached from inside it. */
  lemma NotReachableOutsideRegion(obstacleMap: seq<seq<bool>>, region: set<Coord>, from: Coord, to: Coord)
    requires from in region && to !in region
    requires forall c, n :: c in region && Adjacent(c, n) && Passable(obstacleMap, n) ==> n in region
    ensures !Reachable(obstacleMap, from, to)
  {
    forall p | IsPath(obstacleMap, from, p)
      ensures End(from, p) != to
    {
      PathStaysInRegion(obstacleMap, region, from, p);
    }
  }

  /** The reverse of a sequence (`Array.prototype.reverse`). */
  function Reversed(s: seq<Coord>): (r: seq<Coord>)
    ensures |r| == |s|
    ensures forall i :: 0 <= i < |s| ==> r[i] == s[|s| - 1 - i]
  {
    if s == [] then [] else [s[|s| - 1]] + Reversed(s[..|s| - 1])
  }

  /** Reversing after appending `x` puts `x` first. */
  lemma ReversedSnoc(s: seq<Coord>, x: Coord)
    ensures Reversed(s + [x]) == [x] + Reversed(s)
  {
    assert (s + [x])[..|s|] == s;
  }
}
