/** The A* search over the grid: 4-connected, every step costs 1, Manhattan heuristic. */
module PathFinder {
  import opened Tiles
  import opened ObstacleMaps
  import opened Paths
  import opened SearchGrids

  predicate Distinct(s: seq<Coord>)
  {
    forall i, j :: 0 <= i < j < |s| ==> s[i] != s[j]
  }

  /** The position of the first occurrence of `e` in `s`. */
  function FirstIndex(s: seq<Coord>, e: Coord): (k: nat)
    requires e in s
    ensures k < |s| && s[k] == e && e !in s[..k]
  {
    if s[0] == e then 0
    else
      var k := FirstIndex(s[1..], e) + 1;
      assert s[..k] == [s[0]] + s[1..][..k - 1];
      k
  }

  /** The open list's `removeElement`: drops the first occurrence of `e`, if any,
      and keeps the other entries in their order. */
  function RemoveElement(s: seq<Coord>, e: Coord): (r: seq<Coord>)
    ensures e in s ==> r == s[..FirstIndex(s, e)] + s[FirstIndex(s, e) + 1..]
    ensures e !in s ==> r == s
    ensures forall x :: x in r ==> x in s
    ensures forall x :: x in s && x != e ==> x in r
  {
    if s == [] then []
    else if s[0] == e then s[1..]
    else
      var rest := RemoveElement(s[1..], e);
      assert e in s ==> [s[0]] + rest == s[..FirstIndex(s, e)] + s[FirstIndex(s, e) + 1..] by {
        if e in s {
          var k := FirstIndex(s[1..], e);
          assert s[..k + 1] == [s[0]] + s[1..][..k];
          assert s[k + 2..] == s[1..][k + 1..];
        }
      }
      [s[0]] + rest
  }

  /** Removing from a list without duplicates leaves none, and removes `e` entirely. */
  lemma {:induction false} RemoveElementDistinct(s: seq<Coord>, e: Coord)
    requires Distinct(s)
    ensures Distinct(RemoveElement(s, e))
    ensures e !in RemoveElement(s, e)
  {
    if s != [] && s[0] != e {
      RemoveElementDistinct(s[1..], e);
      var r := RemoveElement(s, e);
      assert s[0] !in s[1..];
      assert r == [s[0]] + RemoveElement(s[1..], e);
      forall i, j | 0 <= i < j < |r|
        ensures r[i] != r[j]
      {
        if i == 0 {
          assert r[j] in RemoveElement(s[1..], e);
        }
      }
    }
  }

  /** The selection scan of the main loop: the index of the first open-list entry
      whose node has the smallest `f`. */
  method LowestIndex(nodes: seq<seq<Node>>, openList: seq<Coord>) returns (lowIndex: nat)
    requires |openList| > 0
    requires forall i :: 0 <= i < |openList| ==> InBounds(nodes, openList[i])
    ensures lowIndex < |openList|
    ensures forall i :: 0 <= i < |openList| ==> At(nodes, openList[lowIndex]).f <= At(nodes, openList[i]).f
    ensures forall i :: 0 <= i < lowIndex ==> At(nodes, openList[lowIndex]).f < At(nodes, openList[i]).f
  {
    lowIndex := 0;
    for i := 1 to |openList|
      invariant lowIndex < i
      invariant forall k :: 0 <= k < i ==> At(nodes, openList[lowIndex]).f <= At(nodes, openList[k]).f
      invariant forall k :: 0 <= k < lowIndex ==> At(nodes, openList[lowIndex]).f < At(nodes, openList[k]).f
    {
      if At(nodes, openList[i]).f < At(nodes, openList[lowIndex]).f {
        lowIndex := i;
      }
    }
  }

  // ---------------------------------------------------------------------------
  // The search invariant, piece by piece.

  /** Every node sits at its own position, and its wall flag is the obstacle map's. */
  ghost predicate Placed(nodes: seq<seq<Node>>, walls: seq<seq<bool>>)
  {
    && |nodes| == |walls|
    && (forall x :: 0 <= x < |nodes| ==> |nodes[x]| == |walls[x]|)
    && (forall c :: InBounds(nodes, c) ==>
          At(nodes, c).x == c.x && At(nodes, c).y == c.y && At(nodes, c).wall == walls[c.x][c.y])
  }

  /** One node's cost fields: f == g + h and g >= 0; a parent exactly when visited;
      a visited node is no wall and carries the Manhattan heuristic. */
  ghost predicate CostsOk(c: Coord, n: Node, target: Coord)
  {
    && n.f == n.g + n.h
    && n.g >= 0
    && (n.visited <==> n.parent.Some?)
    && (n.visited ==> !n.wall && n.h == ManhattanDistance(c, target))
  }

  ghost predicate Costs(nodes: seq<seq<Node>>, target: Coord)
  {
    forall c :: InBounds(nodes, c) ==> CostsOk(c, At(nodes, c), target)
  }

  /** A parent is an adjacent, closed node one step cheaper than its child. */
  ghost predicate ParentLinks(nodes: seq<seq<Node>>)
  {
    && (forall c :: InBounds(nodes, c) && At(nodes, c).parent.Some? ==> InBounds(nodes, At(nodes, c).parent.value))
    && (forall c, p {:trigger At(nodes, c), At(nodes, p)} ::
          InBounds(nodes, c) && InBounds(nodes, p) && At(nodes, c).parent == Some(p) ==>
            Adjacent(p, c) && At(nodes, p).closed && At(nodes, c).g == At(nodes, p).g + 1)
  }

  /** The start node is never visited, so it never gets a parent, and its g stays 0. */
  ghost predicate StartNode(nodes: seq<seq<Node>>, start: Coord)
  {
    InBounds(nodes, start) && !At(nodes, start).visited && At(nodes, start).g == 0
  }

  /** Only the start node and visited nodes are ever closed. */
  ghost predicate ClosedOrigin(nodes: seq<seq<Node>>, start: Coord)
  {
    forall c :: InBounds(nodes, c) && At(nodes, c).closed ==> c == start || At(nodes, c).visited
  }

  /** Until the start node is popped, the open list holds just the start and no node
      has been visited or closed. */
  ghost predicate BeforeFirstPop(nodes: seq<seq<Node>>, start: Coord, openList: seq<Coord>)
  {
    InBounds(nodes, start) && !At(nodes, start).closed ==>
      && openList == [start]
      && forall c :: InBounds(nodes, c) ==> !At(nodes, c).visited && !At(nodes, c).closed
  }

  /** The open list holds each node at most once, only nodes not closed, and exactly
      the visited nodes not yet closed (plus the start before its pop). */
  ghost predicate Frontier(nodes: seq<seq<Node>>, start: Coord, openList: seq<Coord>)
  {
    && Distinct(openList)
    && (forall i :: 0 <= i < |openList| ==>
          InBounds(nodes, openList[i]) && !At(nodes, openList[i]).closed
          && (openList[i] == start || At(nodes, openList[i]).visited))
    && (forall c :: InBounds(nodes, c) && At(nodes, c).visited && !At(nodes, c).closed ==> c in openList)
  }

  /** Every non-wall neighbour of a closed node (other than those in `skip`, whose
      expansion is under way) is closed, or visited at most one step dearer. */
  ghost predicate Settled(nodes: seq<seq<Node>>, skip: set<Coord>)
  {
    forall c, n ::
      (InBounds(nodes, c) && At(nodes, c).closed && c !in skip && Adjacent(c, n) && InBounds(nodes, n) && !At(nodes, n).wall) ==>
        At(nodes, n).closed || (At(nodes, n).visited && At(nodes, n).g <= At(nodes, c).g + 1)
  }

  /** A closed node's g is no more than the length of any walk to it from the start. */
  ghost predicate Optimal(nodes: seq<seq<Node>>, walls: seq<seq<bool>>, start: Coord)
  {
    forall p :: IsPath(walls, start, p) && InBounds(nodes, End(start, p)) && At(nodes, End(start, p)).closed ==>
      At(nodes, End(start, p)).g <= |p|
  }

  /** The target is never closed: popping it ends the search. */
  ghost predicate TargetOpen(nodes: seq<seq<Node>>, target: Coord)
  {
    InBounds(nodes, target) ==> !At(nodes, target).closed
  }

  ghost predicate SearchInv(nodes: seq<seq<Node>>, walls: seq<seq<bool>>, start: Coord, target: Coord,
                            openList: seq<Coord>, skip: set<Coord>)
  {
    && Placed(nodes, walls)
    && Costs(nodes, target)
    && ParentLinks(nodes)
    && StartNode(nodes, start)
    && ClosedOrigin(nodes, start)
    && BeforeFirstPop(nodes, start, openList)
    && Frontier(nodes, start, openList)
    && Settled(nodes, skip)
    && Optimal(nodes, walls, start)
    && TargetOpen(nodes, target)
  }

  /** The positions of the nodes not yet closed: the loop's termination measure. */
  ghost function Unsettled(nodes: seq<seq<Node>>): (r: set<Coord>)
    ensures forall c :: c in r <==> InBounds(nodes, c) && !At(nodes, c).closed
  {
    set x, y | 0 <= x < |nodes| && 0 <= y < |nodes[x]| && !nodes[x][y].closed :: Coord(x, y)
  }

  /** The positions of the closed nodes. */
  ghost function ClosedTiles(nodes: seq<seq<Node>>): (r: set<Coord>)
    ensures forall c :: c in r <==> InBounds(nodes, c) && At(nodes, c).closed
  {
    set x, y | 0 <= x < |nodes| && 0 <= y < |nodes[x]| && nodes[x][y].closed :: Coord(x, y)
  }

  // ---------------------------------------------------------------------------
  // The invariant holds initially and is kept by each step of the search.

  lemma InitialInvariant(nodes: seq<seq<Node>>, start: Coord, target: Coord)
    requires Pristine(nodes) && InBounds(nodes, start)
    ensures SearchInv(nodes, WallMap(nodes), start, target, [start], {})
  {
  }

  /** On a walk from the closed start to a node not closed, the first tile not
      closed, `p[i]`, comes right after a closed tile. */
  lemma FirstOpenOnPath(nodes: seq<seq<Node>>, walls: seq<seq<bool>>, start: Coord, p: seq<Coord>)
    returns (i: nat)
    requires Placed(nodes, walls) && InBounds(nodes, start) && At(nodes, start).closed
    requires IsPath(walls, start, p) && InBounds(nodes, End(start, p)) && !At(nodes, End(start, p)).closed
    ensures i < |p| && InBounds(nodes, p[i]) && !At(nodes, p[i]).closed
    ensures forall k :: 0 <= k < i ==> InBounds(nodes, p[k]) && At(nodes, p[k]).closed
  {
    forall k | 0 <= k < |p|
      ensures InBounds(nodes, p[k])
    {
      PathStep(walls, start, p, k);
    }
    assert p != [] && End(start, p) == p[|p| - 1];
    i := 0;
    while At(nodes, p[i]).closed
      invariant i < |p|
      invariant forall k :: 0 <= k < i ==> At(nodes, p[k]).closed
      decreases |p| - i
    {
      i := i + 1;
    }
  }

  /** The node popped from the open list already has its final, optimal g: no walk
      from the start to it is shorter than g. */
  lemma PoppedIsOptimal(nodes: seq<seq<Node>>, walls: seq<seq<bool>>, start: Coord, target: Coord,
                        openList: seq<Coord>, lowIndex: nat, p: seq<Coord>)
    requires Placed(nodes, walls) && Costs(nodes, target) && StartNode(nodes, start)
    requires BeforeFirstPop(nodes, start, openList) && Frontier(nodes, start, openList)
    requires Settled(nodes, {}) && Optimal(nodes, walls, start)
    requires lowIndex < |openList|
    requires forall i :: 0 <= i < |openList| ==> At(nodes, openList[lowIndex]).f <= At(nodes, openList[i]).f
    requires IsPath(walls, start, p) && End(start, p) == openList[lowIndex]
    ensures At(nodes, openList[lowIndex]).g <= |p|
  {
    var u := openList[lowIndex];
    if u == start {
      return;
    }
    assert At(nodes, start).closed;
    // w is the first tile of p that is not closed; x is the closed tile before it.
    var i := FirstOpenOnPath(nodes, walls, start, p);
    PathStep(walls, start, p, i);
    var w := p[i];
    var x := if i == 0 then start else p[i - 1];
    assert At(nodes, x).g <= i by {
      if i > 0 {
        PathPrefix(walls, start, p, i);
        assert |p[..i]| == i;
      }
    }
    assert CostsOk(w, At(nodes, w), target) && CostsOk(u, At(nodes, u), target);
    assert At(nodes, w).visited && At(nodes, w).g <= At(nodes, x).g + 1;
    assert w in openList;
    var j :| 0 <= j < |openList| && openList[j] == w;
    assert At(nodes, u).f <= At(nodes, w).f;
    PathSuffix(walls, start, p, i);
    PathLengthBound(walls, w, p[i + 1..]);
    ManhattanTriangle(w, u, target);
  }

  /** Replacing one node by another at the same position with the same wall flag
      keeps the nodes in place. */
  lemma SetAtKeepsPlaced(nodes: seq<seq<Node>>, walls: seq<seq<bool>>, v: Coord, n: Node)
    requires Placed(nodes, walls) && InBounds(nodes, v)
    requires n.x == v.x && n.y == v.y && n.wall == At(nodes, v).wall
    ensures Placed(SetAt(nodes, v, n), walls)
  {
  }

  lemma SetAtKeepsCosts(nodes: seq<seq<Node>>, target: Coord, v: Coord, n: Node)
    requires Costs(nodes, target) && InBounds(nodes, v) && CostsOk(v, n, target)
    ensures Costs(SetAt(nodes, v, n), target)
  {
  }

  /** Closing a node breaks no parent link. */
  lemma CloseKeepsLinks(nodes: seq<seq<Node>>, u: Coord)
    requires ParentLinks(nodes) && InBounds(nodes, u)
    ensures ParentLinks(SetAt(nodes, u, At(nodes, u).(closed := true)))
  {
    var next := SetAt(nodes, u, At(nodes, u).(closed := true));
    forall c, p {:trigger At(next, c), At(next, p)}
      | InBounds(next, c) && InBounds(next, p) && At(next, c).parent == Some(p)
      ensures Adjacent(p, c) && At(next, p).closed && At(next, c).g == At(next, p).g + 1
    {
      assert At(nodes, c).parent == Some(p);
    }
  }

  /** Removing the popped node from the open list while closing it keeps the frontier. */
  lemma CloseKeepsFrontier(nodes: seq<seq<Node>>, start: Coord, openList: seq<Coord>, lowIndex: nat)
    requires Frontier(nodes, start, openList) && lowIndex < |openList|
    ensures var u := openList[lowIndex];
            Frontier(SetAt(nodes, u, At(nodes, u).(closed := true)), start, RemoveElement(openList, u))
  {
    var u := openList[lowIndex];
    var next := SetAt(nodes, u, At(nodes, u).(closed := true));
    var rest := RemoveElement(openList, u);
    RemoveElementDistinct(openList, u);
    forall i | 0 <= i < |rest|
      ensures InBounds(next, rest[i]) && !At(next, rest[i]).closed && (rest[i] == start || At(next, rest[i]).visited)
    {
      assert rest[i] in openList;
      var k :| 0 <= k < |openList| && openList[k] == rest[i];
    }
  }

  /** Closing a node leaves the neighbours of the other closed nodes reached. */
  lemma CloseKeepsSettled(nodes: seq<seq<Node>>, u: Coord)
    requires Settled(nodes, {}) && InBounds(nodes, u)
    ensures Settled(SetAt(nodes, u, At(nodes, u).(closed := true)), {u})
  {
  }

  /** Popping the earliest lowest-f node `u` (not the target) off the open list and
      closing it keeps the invariant, with `u`'s expansion still to come. */
  lemma CloseKeepsInvariant(nodes: seq<seq<Node>>, walls: seq<seq<bool>>, start: Coord, target: Coord,
                            openList: seq<Coord>, lowIndex: nat)
    requires SearchInv(nodes, walls, start, target, openList, {})
    requires lowIndex < |openList| && openList[lowIndex] != target
    requires forall i :: 0 <= i < |openList| ==> At(nodes, openList[lowIndex]).f <= At(nodes, openList[i]).f
    ensures var u := openList[lowIndex];
            var closedNodes := SetAt(nodes, u, At(nodes, u).(closed := true));
            && SearchInv(closedNodes, walls, start, target, RemoveElement(openList, u), {u})
            && Unsettled(closedNodes) == Unsettled(nodes) - {u}
  {
    var u := openList[lowIndex];
    var n := At(nodes, u).(closed := true);
    var closedNodes := SetAt(nodes, u, n);
    assert CostsOk(u, At(nodes, u), target);
    SetAtKeepsPlaced(nodes, walls, u, n);
    SetAtKeepsCosts(nodes, target, u, n);
    CloseKeepsLinks(nodes, u);
    CloseKeepsFrontier(nodes, start, openList, lowIndex);
    CloseKeepsSettled(nodes, u);
    CloseKeepsOptimal(nodes, walls, start, target, openList, lowIndex);
    CloseKeepsClosedParts(nodes, start, target, openList, lowIndex);
  }

  /** The popped node keeps its g when closed, and that g is optimal. */
  lemma CloseKeepsOptimal(nodes: seq<seq<Node>>, walls: seq<seq<bool>>, start: Coord, target: Coord,
                          openList: seq<Coord>, lowIndex: nat)
    requires Placed(nodes, walls) && Costs(nodes, target) && StartNode(nodes, start)
    requires BeforeFirstPop(nodes, start, openList) && Frontier(nodes, start, openList)
    requires Settled(nodes, {}) && Optimal(nodes, walls, start)
    requires lowIndex < |openList|
    requires forall i :: 0 <= i < |openList| ==> At(nodes, openList[lowIndex]).f <= At(nodes, openList[i]).f
    ensures var u := openList[lowIndex];
            Optimal(SetAt(nodes, u, At(nodes, u).(closed := true)), walls, start)
  {
    var u := openList[lowIndex];
    var closedNodes := SetAt(nodes, u, At(nodes, u).(closed := true));
    forall p | IsPath(walls, start, p) && InBounds(closedNodes, End(start, p)) && At(closedNodes, End(start, p)).closed
      ensures At(closedNodes, End(start, p)).g <= |p|
    {
      if End(start, p) == u {
        PoppedIsOptimal(nodes, walls, start, target, openList, lowIndex, p);
      }
    }
  }

  /** Closing the popped node, which is the start or visited and is not the target,
      closes the start first and leaves the start node and the target alone; one
      node fewer is open. */
  lemma CloseKeepsClosedParts(nodes: seq<seq<Node>>, start: Coord, target: Coord, openList: seq<Coord>, lowIndex: nat)
    requires StartNode(nodes, start) && ClosedOrigin(nodes, start) && TargetOpen(nodes, target)
    requires BeforeFirstPop(nodes, start, openList) && Frontier(nodes, start, openList)
    requires lowIndex < |openList| && openList[lowIndex] != target
    ensures var u := openList[lowIndex];
            var closedNodes := SetAt(nodes, u, At(nodes, u).(closed := true));
            && StartNode(closedNodes, start) && ClosedOrigin(closedNodes, start)
            && TargetOpen(closedNodes, target) && At(closedNodes, start).closed
            && BeforeFirstPop(closedNodes, start, RemoveElement(openList, u))
            && Unsettled(closedNodes) == Unsettled(nodes) - {u}
  {
    var u := openList[lowIndex];
    if !At(nodes, start).closed {
      assert u == start;
    }
  }

  /** Changing a node that is not closed, and not closing it, leaves every closed
      node, the start node and the target as they were. */
  lemma OpenUpdateKeepsClosedParts(nodes: seq<seq<Node>>, walls: seq<seq<bool>>, start: Coord, target: Coord,
                                   openList: seq<Coord>, newOpenList: seq<Coord>, v: Coord, n: Node)
    requires StartNode(nodes, start) && ClosedOrigin(nodes, start) && Optimal(nodes, walls, start)
    requires TargetOpen(nodes, target) && At(nodes, start).closed
    requires InBounds(nodes, v) && !At(nodes, v).closed && !n.closed
    ensures var next := SetAt(nodes, v, n);
            && StartNode(next, start) && ClosedOrigin(next, start) && Optimal(next, walls, start)
            && TargetOpen(next, target) && BeforeFirstPop(next, start, newOpenList)
  {
  }

  /** Giving an open neighbour of the closed `current` the parent `current` breaks
      no parent link: nothing has the open neighbour as parent. */
  lemma RelaxKeepsLinks(nodes: seq<seq<Node>>, current: Coord, v: Coord, n: Node)
    requires ParentLinks(nodes)
    requires InBounds(nodes, current) && At(nodes, current).closed
    requires InBounds(nodes, v) && Adjacent(current, v) && !At(nodes, v).closed
    requires !n.closed && n.parent == Some(current) && n.g == At(nodes, current).g + 1
    ensures ParentLinks(SetAt(nodes, v, n))
  {
    var next := SetAt(nodes, v, n);
    forall c, p {:trigger At(next, c), At(next, p)}
      | InBounds(next, c) && InBounds(next, p) && At(next, c).parent == Some(p)
      ensures Adjacent(p, c) && At(next, p).closed && At(next, c).g == At(next, p).g + 1
    {
      if c != v {
        assert At(nodes, c).parent == Some(p);
      }
    }
  }

  /** Visiting a node pushes it on the open list; improving one leaves the list alone. */
  lemma RelaxKeepsFrontier(nodes: seq<seq<Node>>, start: Coord, openList: seq<Coord>, newOpenList: seq<Coord>,
                           v: Coord, n: Node)
    requires Frontier(nodes, start, openList)
    requires InBounds(nodes, v) && !At(nodes, v).closed && v != start && n.visited && !n.closed
    requires At(nodes, v).visited ==> newOpenList == openList
    requires !At(nodes, v).visited ==> newOpenList == openList + [v]
    ensures Frontier(SetAt(nodes, v, n), start, newOpenList)
  {
    var next := SetAt(nodes, v, n);
    if !At(nodes, v).visited {
      assert v !in openList;
      forall i, j | 0 <= i < j < |newOpenList|
        ensures newOpenList[i] != newOpenList[j]
      {
        if j == |openList| {
          assert newOpenList[i] == openList[i];
        }
      }
      forall i | 0 <= i < |newOpenList|
        ensures InBounds(next, newOpenList[i]) && !At(next, newOpenList[i]).closed
        ensures newOpenList[i] == start || At(next, newOpenList[i]).visited
      {
        if i < |openList| {
          assert newOpenList[i] == openList[i];
        }
      }
    }
  }

  /** Lowering or setting a neighbour's g keeps every other closed node's neighbours reached. */
  lemma RelaxKeepsSettled(nodes: seq<seq<Node>>, current: Coord, v: Coord, n: Node)
    requires Settled(nodes, {current})
    requires InBounds(nodes, v) && !At(nodes, v).closed && !n.closed && n.visited && n.wall == At(nodes, v).wall
    requires At(nodes, v).visited ==> n.g <= At(nodes, v).g
    ensures Settled(SetAt(nodes, v, n), {current})
  {
  }

  /** The neighbour `v` with `parent` as its new parent, `g` as its new cost so far
      and `h` as its heuristic; it is now visited. */
  function Relaxed(v: Node, parent: Coord, g: int, h: int): Node
  {
    v.(h := h, visited := true, parent := Some(parent), g := g, f := g + h)
  }

  /** Relaxing the passable, open neighbour `v` of the node under expansion, whether
      first visit or improvement, keeps the invariant. */
  lemma RelaxKeepsInvariant(nodes: seq<seq<Node>>, walls: seq<seq<bool>>, start: Coord, target: Coord,
                            openList: seq<Coord>, newOpenList: seq<Coord>, current: Coord, v: Coord, g: int, h: int)
    requires SearchInv(nodes, walls, start, target, openList, {current})
    requires InBounds(nodes, current) && At(nodes, current).closed && g == At(nodes, current).g + 1
    requires InBounds(nodes, v) && Adjacent(current, v)
    requires !At(nodes, v).closed && !At(nodes, v).wall
    requires At(nodes, v).visited ==>
      h == At(nodes, v).h && g < At(nodes, v).g && newOpenList == openList
    requires !At(nodes, v).visited ==> h == ManhattanDistance(v, target) && newOpenList == openList + [v]
    ensures SearchInv(SetAt(nodes, v, Relaxed(At(nodes, v), current, g, h)), walls, start, target, newOpenList, {current})
  {
    var n := Relaxed(At(nodes, v), current, g, h);
    assert At(nodes, start).closed;
    assert CostsOk(v, At(nodes, v), target) && CostsOk(current, At(nodes, current), target);
    SetAtKeepsPlaced(nodes, walls, v, n);
    SetAtKeepsCosts(nodes, target, v, n);
    RelaxKeepsLinks(nodes, current, v, n);
    RelaxKeepsFrontier(nodes, start, openList, newOpenList, v, n);
    RelaxKeepsSettled(nodes, current, v, n);
    OpenUpdateKeepsClosedParts(nodes, walls, start, target, openList, newOpenList, v, n);
  }

  /** The neighbour loop's goal for one neighbour: closed, a wall, or visited at most
      one step dearer than the node under expansion. */
  ghost predicate Reached(nodes: seq<seq<Node>>, current: Coord, n: Coord)
    requires InBounds(nodes, current) && InBounds(nodes, n)
  {
    At(nodes, n).closed || At(nodes, n).wall || (At(nodes, n).visited && At(nodes, n).g <= At(nodes, current).g + 1)
  }

  /** What the neighbour loop keeps, between the grid `before` it and the grid `nodes`
      after `i` neighbours: same shape, same closed flags, closed nodes untouched, and
      the first `i` neighbours reached. */
  ghost predicate ExpandFrame(before: seq<seq<Node>>, nodes: seq<seq<Node>>, current: Coord,
                              neighbors: seq<Coord>, i: nat)
  {
    && |nodes| == |before|
    && (forall x :: 0 <= x < |nodes| ==> |nodes[x]| == |before[x]|)
    && (forall c :: InBounds(nodes, c) <==> InBounds(before, c))
    && (forall c :: InBounds(before, c) ==> At(nodes, c).closed == At(before, c).closed)
    && (forall c :: InBounds(before, c) && At(before, c).closed ==> At(nodes, c) == At(before, c))
    && InBounds(nodes, current) && i <= |neighbors|
    && (forall k :: 0 <= k < |neighbors| ==> InBounds(nodes, neighbors[k]))
    && (forall k :: 0 <= k < i ==> Reached(nodes, current, neighbors[k]))
  }

  /** Updating the open neighbour `neighbors[i]`, to a node no dearer than `current`'s
      g plus one, reaches it and leaves the neighbours before it reached. */
  lemma RelaxKeepsFrame(before: seq<seq<Node>>, nodes: seq<seq<Node>>, current: Coord,
                        neighbors: seq<Coord>, i: nat, n: Node)
    requires ExpandFrame(before, nodes, current, neighbors, i) && i < |neighbors|
    requires Distinct(neighbors)
    requires At(nodes, current).closed && !At(nodes, neighbors[i]).closed
    requires !n.closed && n.visited && n.g <= At(nodes, current).g + 1
    ensures ExpandFrame(before, SetAt(nodes, neighbors[i], n), current, neighbors, i + 1)
  {
  }

  /** A neighbour already reached needs no update. */
  lemma SkipKeepsFrame(before: seq<seq<Node>>, nodes: seq<seq<Node>>, current: Coord, neighbors: seq<Coord>, i: nat)
    requires ExpandFrame(before, nodes, current, neighbors, i) && i < |neighbors|
    requires Reached(nodes, current, neighbors[i])
    ensures ExpandFrame(before, nodes, current, neighbors, i + 1)
  {
  }

  /** The neighbour loop closes nothing and changes no closed node. */
  lemma FrameKeepsClosed(before: seq<seq<Node>>, nodes: seq<seq<Node>>, current: Coord, neighbors: seq<Coord>, i: nat)
    requires ExpandFrame(before, nodes, current, neighbors, i)
    ensures Unsettled(nodes) == Unsettled(before)
    ensures forall c :: InBounds(before, c) && At(before, c).closed ==> InBounds(nodes, c) && At(nodes, c) == At(before, c)
  {
  }

  /** Once every neighbour of `current` is reached, `current` is settled too. */
  lemma ExpandedSettled(nodes: seq<seq<Node>>, current: Coord, neighbors: seq<Coord>)
    requires Settled(nodes, {current}) && InBounds(nodes, current)
    requires forall c :: InBounds(nodes, c) && Adjacent(current, c) ==> c in neighbors
    requires forall k :: 0 <= k < |neighbors| ==> InBounds(nodes, neighbors[k]) && Reached(nodes, current, neighbors[k])
    ensures Settled(nodes, {})
  {
    forall c, n | InBounds(nodes, c) && At(nodes, c).closed && Adjacent(c, n) && InBounds(nodes, n) && !At(nodes, n).wall
      ensures At(nodes, n).closed || (At(nodes, n).visited && At(nodes, n).g <= At(nodes, c).g + 1)
    {
      if c == current {
        var k :| 0 <= k < |neighbors| && neighbors[k] == n;
        assert Reached(nodes, current, neighbors[k]);
      }
    }
  }

  /** What one pass of the neighbour loop makes of the node at `n`, when the node
      under expansion, at `current`, offers it the cost `gScore`: a closed node or a
      wall is skipped; on a first visit the node takes the Manhattan distance to the
      target as its heuristic; a visited node is updated only when `gScore` is below
      its g. A passable open node ends up visited, and no visited node gets dearer. */
  function Relax(node: Node, n: Coord, current: Coord, gScore: int, target: Coord): (r: Node)
    ensures r.x == node.x && r.y == node.y && r.wall == node.wall && r.closed == node.closed
    ensures node.closed || node.wall ==> r == node
    ensures !node.closed && !node.wall ==> r.visited && r.g <= gScore
    ensures node.visited ==> r.h == node.h && r.g <= node.g
  {
    if node.closed || node.wall then node
    else if !node.visited then Relaxed(node, current, gScore, ManhattanDistance(n, target))
    else if gScore < node.g then Relaxed(node, current, gScore, node.h)
    else node
  }

  /** A node the neighbour loop pushes on the open list: open, passable, never visited. */
  predicate FirstVisit(node: Node)
  {
    !node.closed && !node.wall && !node.visited
  }

  /** The positions among `ns` whose node in `nodes` is a first visit, in the order
      of `ns`. */
  function FirstVisits(nodes: seq<seq<Node>>, ns: seq<Coord>): (r: seq<Coord>)
    requires forall k :: 0 <= k < |ns| ==> InBounds(nodes, ns[k])
    ensures forall c :: c in r <==> c in ns && FirstVisit(At(nodes, c))
  {
    if ns == [] then []
    else
      var n := ns[|ns| - 1];
      FirstVisits(nodes, ns[..|ns| - 1]) + if FirstVisit(At(nodes, n)) then [n] else []
  }

  /** After the first `i` passes of the neighbour loop, over `ns[0]` to `ns[i - 1]`,
      each of those positions holds what one pass makes of its node before the loop,
      and every other node is as it was before the loop. */
  ghost predicate UpdatedUpTo(before: seq<seq<Node>>, nodes: seq<seq<Node>>, current: Coord, ns: seq<Coord>,
                              i: nat, target: Coord)
  {
    && InBounds(before, current) && i <= |ns|
    && (forall c :: InBounds(before, c) ==> InBounds(nodes, c))
    && (forall c :: InBounds(before, c) ==>
          At(nodes, c) == if c in ns[..i] then Relax(At(before, c), c, current, At(before, current).g + 1, target)
                          else At(before, c))
  }

  /** One more pass, over `ns[i]`, extends the updated prefix by one and appends to
      the open list exactly when the node before the loop was a first visit
      (`j` is `i + 1`). The pass reads `current`'s g from the grid as it stands,
      which is `current`'s g before the loop, because `current` is not among `ns`. */
  lemma PassUpdates(before: seq<seq<Node>>, nodes: seq<seq<Node>>, next: seq<seq<Node>>, current: Coord,
                    ns: seq<Coord>, i: nat, j: nat, target: Coord, g: int,
                    openList: seq<Coord>, pushed: seq<Coord>, nextPushed: seq<Coord>)
    requires UpdatedUpTo(before, nodes, current, ns, i, target) && i < |ns| && j == i + 1
    requires forall k :: 0 <= k < |ns| ==> InBounds(before, ns[k])
    requires Distinct(ns) && current !in ns
    requires |nodes| == |before| && forall x :: 0 <= x < |nodes| ==> |nodes[x]| == |before[x]|
    requires g == At(nodes, current).g + 1
    requires next == SetAt(nodes, ns[i], Relax(At(nodes, ns[i]), ns[i], current, g, target))
    requires pushed == openList + FirstVisits(before, ns[..i])
    requires nextPushed == pushed + if FirstVisit(At(nodes, ns[i])) then [ns[i]] else []
    ensures UpdatedUpTo(before, next, current, ns, j, target)
    ensures nextPushed == openList + FirstVisits(before, ns[..j])
  {
    var n := ns[i];
    assert n !in ns[..i];
    assert At(nodes, n) == At(before, n);
    assert At(nodes, current) == At(before, current);
    assert ns[..j] == ns[..i] + [n];
    forall c | InBounds(before, c)
      ensures At(next, c) == if c in ns[..j] then Relax(At(before, c), c, current, At(before, current).g + 1, target)
                             else At(before, c)
    {
    }
    PassPushed(before, ns, i, j, openList, pushed, nextPushed);
  }

  /** A pass pushes its neighbour exactly when it is a first visit, which extends
      the open list to the first visits among the neighbours up to `j`. */
  lemma PassPushed(before: seq<seq<Node>>, ns: seq<Coord>, i: nat, j: nat,
                   openList: seq<Coord>, pushed: seq<Coord>, nextPushed: seq<Coord>)
    requires i < |ns| && j == i + 1
    requires forall k :: 0 <= k < |ns| ==> InBounds(before, ns[k])
    requires pushed == openList + FirstVisits(before, ns[..i])
    requires nextPushed == pushed + if FirstVisit(At(before, ns[i])) then [ns[i]] else []
    ensures nextPushed == openList + FirstVisits(before, ns[..j])
  {
    assert ns[..j][..i] == ns[..i];
    var extra := if FirstVisit(At(before, ns[i])) then [ns[i]] else [];
    assert (openList + FirstVisits(before, ns[..i])) + extra == openList + (FirstVisits(before, ns[..i]) + extra);
  }

  /** getNeighbors lists no position twice, and never the element itself. */
  lemma NeighborsDistinct(nodes: seq<seq<Node>>, current: Coord)
    ensures Distinct(Neighbors(nodes, current)) && current !in Neighbors(nodes, current)
  {
    var neighbors := Neighbors(nodes, current);
    NeighborsInDirectionOrder(nodes, current);
    forall j, k | 0 <= j < k < |neighbors|
      ensures neighbors[j] != neighbors[k]
    {
      assert Direction(current, neighbors[j]) < Direction(current, neighbors[k]);
    }
    assert !Adjacent(current, current);
  }

  /** Once every pass is done, every neighbour holds what one pass makes of its node
      before the loop, and the open list has grown by all the first visits among them. */
  lemma UpdatedAll(before: seq<seq<Node>>, nodes: seq<seq<Node>>, current: Coord, ns: seq<Coord>, target: Coord,
                   openList: seq<Coord>, newOpenList: seq<Coord>)
    requires UpdatedUpTo(before, nodes, current, ns, |ns|, target)
    requires forall k :: 0 <= k < |ns| ==> InBounds(before, ns[k])
    requires newOpenList == openList + FirstVisits(before, ns[..|ns|])
    ensures forall c :: InBounds(before, c) ==> InBounds(nodes, c)
    ensures forall c :: InBounds(before, c) ==>
      At(nodes, c) == if c in ns then Relax(At(before, c), c, current, At(before, current).g + 1, target) else At(before, c)
    ensures newOpenList == openList + FirstVisits(before, ns)
  {
    assert ns[..|ns|] == ns;
  }

  /** One pass of the neighbour loop keeps the search invariant and reaches the
      neighbour, whichever way the pass goes (`j` is `i + 1`; `next` and
      `nextOpen` are the grid and open list after the pass). */
  lemma RelaxKeepsLoop(nodes: seq<seq<Node>>, next: seq<seq<Node>>, walls: seq<seq<bool>>, start: Coord,
                       target: Coord, current: Coord, before: seq<seq<Node>>, neighbors: seq<Coord>,
                       i: nat, j: nat, openList: seq<Coord>, nextOpen: seq<Coord>, g: int)
    requires SearchInv(nodes, walls, start, target, openList, {current})
    requires ExpandFrame(before, nodes, current, neighbors, i) && i < |neighbors| && j == i + 1
    requires Distinct(neighbors) && forall k :: 0 <= k < |neighbors| ==> Adjacent(current, neighbors[k])
    requires At(nodes, current).closed && g == At(nodes, current).g + 1
    requires next == SetAt(nodes, neighbors[i], Relax(At(nodes, neighbors[i]), neighbors[i], current, g, target))
    requires nextOpen == openList + if FirstVisit(At(nodes, neighbors[i])) then [neighbors[i]] else []
    ensures SearchInv(next, walls, start, target, nextOpen, {current})
    ensures ExpandFrame(before, next, current, neighbors, j)
  {
    var n := neighbors[i];
    var node := At(nodes, n);
    var relaxed := Relax(node, n, current, g, target);
    if relaxed == node {
      SetAtSame(nodes, n);
      assert openList + [] == openList;
      SkipKeepsFrame(before, nodes, current, neighbors, i);
    } else if !node.visited {
      RelaxKeepsInvariant(nodes, walls, start, target, openList, openList + [n], current, n, g, ManhattanDistance(n, target));
      RelaxKeepsFrame(before, nodes, current, neighbors, i, relaxed);
    } else {
      assert openList + [] == openList;
      RelaxKeepsInvariant(nodes, walls, start, target, openList, openList, current, n, g, node.h);
      RelaxKeepsFrame(before, nodes, current, neighbors, i, relaxed);
    }
  }

  /** The neighbour loop's invariant, kept by one pass: the search invariant, the
      frame, the updated prefix and the open list built so far (`j` is `i + 1`). */
  lemma PassKeepsLoop(nodes: seq<seq<Node>>, next: seq<seq<Node>>, walls: seq<seq<bool>>, start: Coord,
                      target: Coord, current: Coord, before: seq<seq<Node>>, neighbors: seq<Coord>,
                      i: nat, j: nat, openList: seq<Coord>, pushed: seq<Coord>, nextPushed: seq<Coord>, g: int)
    requires SearchInv(nodes, walls, start, target, pushed, {current})
    requires ExpandFrame(before, nodes, current, neighbors, i) && i < |neighbors| && j == i + 1
    requires UpdatedUpTo(before, nodes, current, neighbors, i, target)
    requires pushed == openList + FirstVisits(before, neighbors[..i])
    requires Distinct(neighbors) && current !in neighbors
    requires forall k :: 0 <= k < |neighbors| ==> InBounds(before, neighbors[k]) && Adjacent(current, neighbors[k])
    requires InBounds(nodes, current) && InBounds(nodes, neighbors[i])
    requires At(nodes, current).closed && g == At(nodes, current).g + 1
    requires next == SetAt(nodes, neighbors[i], Relax(At(nodes, neighbors[i]), neighbors[i], current, g, target))
    requires nextPushed == pushed + if FirstVisit(At(nodes, neighbors[i])) then [neighbors[i]] else []
    ensures nextPushed == openList + FirstVisits(before, neighbors[..j])
    ensures SearchInv(next, walls, start, target, nextPushed, {current})
    ensures ExpandFrame(before, next, current, neighbors, j)
    ensures UpdatedUpTo(before, next, current, neighbors, j, target)
  {
    RelaxKeepsLoop(nodes, next, walls, start, target, current, before, neighbors, i, j, pushed, nextPushed, g);
    PassUpdates(before, nodes, next, current, neighbors, i, j, target, g, openList, pushed, nextPushed);
  }

  /** One pass of the neighbour loop, for `neighbor`: a closed node or a wall is
      skipped; a node seen for the first time gets its heuristic and is pushed on
      the open list; and the node gets `current` as parent, with g one more than
      `current`'s, when that is the best g found for it so far. */
  method RelaxNeighbor(grid: SearchGrid, target: Coord, current: Coord, neighbor: Coord, openList: seq<Coord>)
    returns (newOpenList: seq<Coord>)
    requires InBounds(grid.nodes, current) && InBounds(grid.nodes, neighbor)
    modifies grid
    ensures grid.nodes == SetAt(old(grid.nodes), neighbor,
      Relax(At(old(grid.nodes), neighbor), neighbor, current, At(old(grid.nodes), current).g + 1, target))
    ensures newOpenList == openList + if FirstVisit(At(old(grid.nodes), neighbor)) then [neighbor] else []
  {
    newOpenList := openList;
    var node := At(grid.nodes, neighbor);
    if node.closed || node.wall {
      SetAtSame(grid.nodes, neighbor);
      assert newOpenList == openList + [];
      return;
    }
    var gScore := At(grid.nodes, current).g + 1;
    var gScoreIsBest := false;
    var h := node.h;
    if !node.visited {
      gScoreIsBest := true;
      h := ManhattanDistance(neighbor, target);
      newOpenList := newOpenList + [neighbor];
    } else if gScore < node.g {
      gScoreIsBest := true;
    }
    if gScoreIsBest {
      grid.nodes := SetAt(grid.nodes, neighbor, Relaxed(node, current, gScore, h));
    } else {
      SetAtSame(grid.nodes, neighbor);
    }
    assert node.visited ==> newOpenList == openList + [];
  }

  /** One pass of the neighbour loop, over `neighbors[i]`, as the loop sees it: the
      pass keeps the loop's invariant (`j` is `i + 1`; `openList` is the open list
      before the loop, `pushed` the one built so far). */
  method VisitNeighbor(grid: SearchGrid, ghost walls: seq<seq<bool>>, ghost start: Coord, target: Coord,
                       current: Coord, ghost before: seq<seq<Node>>, neighbors: seq<Coord>, i: nat, ghost j: nat,
                       ghost openList: seq<Coord>, pushed: seq<Coord>) returns (nextPushed: seq<Coord>)
    requires SearchInv(grid.nodes, walls, start, target, pushed, {current})
    requires ExpandFrame(before, grid.nodes, current, neighbors, i) && i < |neighbors| && j == i + 1
    requires UpdatedUpTo(before, grid.nodes, current, neighbors, i, target)
    requires pushed == openList + FirstVisits(before, neighbors[..i])
    requires Distinct(neighbors) && current !in neighbors
    requires forall k :: 0 <= k < |neighbors| ==> InBounds(before, neighbors[k]) && Adjacent(current, neighbors[k])
    requires At(before, current).closed
    modifies grid
    ensures SearchInv(grid.nodes, walls, start, target, nextPushed, {current})
    ensures ExpandFrame(before, grid.nodes, current, neighbors, j)
    ensures UpdatedUpTo(before, grid.nodes, current, neighbors, j, target)
    ensures nextPushed == openList + FirstVisits(before, neighbors[..j])
  {
    ghost var prev := grid.nodes;
    ghost var g := At(prev, current).g + 1;
    nextPushed := RelaxNeighbor(grid, target, current, neighbors[i], pushed);
    PassKeepsLoop(prev, grid.nodes, walls, start, target, current, before, neighbors, i, j,
                  openList, pushed, nextPushed, g);
  }

  /** The expansion of the just-closed `current`: its neighbours, in `getNeighbors`
      order, each get one pass of the neighbour loop. Every other node is left as it
      was; each neighbour is updated from its state before the expansion; the open
      list grows by the neighbours seen for the first time, in that order; and the
      search invariant is restored. */
  method Expand(grid: SearchGrid, ghost walls: seq<seq<bool>>, start: Coord, target: Coord,
                current: Coord, openList: seq<Coord>) returns (newOpenList: seq<Coord>)
    requires SearchInv(grid.nodes, walls, start, target, openList, {current})
    requires InBounds(grid.nodes, current) && At(grid.nodes, current).closed
    modifies grid
    ensures SearchInv(grid.nodes, walls, start, target, newOpenList, {})
    ensures Unsettled(grid.nodes) == Unsettled(old(grid.nodes))
    ensures forall c :: InBounds(old(grid.nodes), c) ==> InBounds(grid.nodes, c)
    ensures forall c :: InBounds(old(grid.nodes), c) ==>
      At(grid.nodes, c) == if c in Neighbors(old(grid.nodes), current)
                           then Relax(At(old(grid.nodes), c), c, current, At(old(grid.nodes), current).g + 1, target)
                           else At(old(grid.nodes), c)
    ensures newOpenList == openList + FirstVisits(old(grid.nodes), Neighbors(old(grid.nodes), current))
  {
    ghost var before := grid.nodes;
    var neighbors := Neighbors(grid.nodes, current);
    NeighborsDistinct(grid.nodes, current);
    newOpenList := openList;
    for i := 0 to |neighbors|
      invariant SearchInv(grid.nodes, walls, start, target, newOpenList, {current})
      invariant ExpandFrame(before, grid.nodes, current, neighbors, i)
      invariant UpdatedUpTo(before, grid.nodes, current, neighbors, i, target)
      invariant newOpenList == openList + FirstVisits(before, neighbors[..i])
    {
      newOpenList := VisitNeighbor(grid, walls, start, target, current, before, neighbors, i, i + 1, openList, newOpenList);
    }
    ExpandedSettled(grid.nodes, current, neighbors);
    FrameKeepsClosed(before, grid.nodes, current, neighbors, |neighbors|);
    UpdatedAll(before, grid.nodes, current, neighbors, target, openList, newOpenList);
  }

  /** The walk back along the parent links from the target, reversed (main.ts:139-146):
      a walk from the start to the target whose length is the target's g, empty
      exactly when the target is the start. */
  method Reconstruct(nodes: seq<seq<Node>>, ghost walls: seq<seq<bool>>, start: Coord, target: Coord)
    returns (path: seq<Coord>)
    requires Placed(nodes, walls) && Costs(nodes, target) && ParentLinks(nodes)
    requires StartNode(nodes, start) && ClosedOrigin(nodes, start)
    requires InBounds(nodes, target) && (target == start || At(nodes, target).visited)
    ensures IsPath(walls, start, path) && End(start, path) == target
    ensures |path| == At(nodes, target).g
    ensures path == [] <==> target == start
  {
    var current := target;
    var returnList: seq<Coord> := [];
    while At(nodes, current).parent.Some?
      invariant InBounds(nodes, current) && (current == start || At(nodes, current).visited)
      invariant |returnList| + At(nodes, current).g == At(nodes, target).g
      invariant IsPath(walls, current, Reversed(returnList)) && End(current, Reversed(returnList)) == target
      invariant returnList == [] <==> current == target
      decreases At(nodes, current).g
    {
      var parent := At(nodes, current).parent.value;
      ReversedSnoc(returnList, current);
      returnList := returnList + [current];
      current := parent;
    }
    path := Reversed(returnList);
  }

  /** The obstacle map `Placed` ties a grid to is the grid's own wall map. */
  lemma PlacedWalls(nodes: seq<seq<Node>>, walls: seq<seq<bool>>)
    requires Placed(nodes, walls)
    ensures WallMap(nodes) == walls
  {
    var m := WallMap(nodes);
    forall i | 0 <= i < |m|
      ensures m[i] == walls[i]
    {
      forall j | 0 <= j < |m[i]|
        ensures m[i][j] == walls[i][j]
      {
        assert InBounds(m, Coord(i, j));
      }
    }
  }

  /** Popping the target ends the search with an optimal walk: once the target is the
      open node of least f, its parent chain is no longer than any walk to it. */
  lemma FoundIsShortest(nodes: seq<seq<Node>>, walls: seq<seq<bool>>, start: Coord, target: Coord,
                        openList: seq<Coord>, lowIndex: nat, path: seq<Coord>)
    requires SearchInv(nodes, walls, start, target, openList, {})
    requires lowIndex < |openList| && openList[lowIndex] == target
    requires forall i :: 0 <= i < |openList| ==> At(nodes, openList[lowIndex]).f <= At(nodes, openList[i]).f
    requires IsPath(walls, start, path) && End(start, path) == target && |path| == At(nodes, target).g
    ensures ShortestPath(walls, start, target, path)
  {
    forall q | IsPath(walls, start, q) && End(start, q) == target
      ensures |path| <= |q|
    {
      PoppedIsOptimal(nodes, walls, start, target, openList, lowIndex, q);
    }
  }

  /** An open list run dry means the target cannot be reached: the closed nodes form
      a region that contains the start, not the target, and no passable step leaves. */
  lemma ExhaustedUnreachable(nodes: seq<seq<Node>>, walls: seq<seq<bool>>, start: Coord, target: Coord)
    requires SearchInv(nodes, walls, start, target, [], {})
    ensures start != target && !Reachable(walls, start, target)
  {
    var region := ClosedTiles(nodes);
    assert At(nodes, start).closed;
    forall c, n | c in region && Adjacent(c, n) && Passable(walls, n)
      ensures n in region
    {
      assert InBounds(nodes, n) && !At(nodes, n).wall;
    }
    NotReachableOutsideRegion(walls, region, start, target);
  }

  /** aStar. The search pops the earliest open node of least f; reaching the target,
      it returns the parent chain as a walk. A returned walk starts next to the start,
      ends at the target, avoids walls, is no longer than any other walk, and its
      length is the target's final g. The empty list comes back exactly when the
      target is the start or cannot be reached. Walls never change. */
  method AStar(grid: SearchGrid, start: Coord, target: Coord) returns (path: seq<Coord>)
    requires Pristine(grid.nodes)
    requires InBounds(grid.nodes, start)
    modifies grid
    ensures WallMap(grid.nodes) == WallMap(old(grid.nodes))
    ensures path == [] <==> start == target || !Reachable(WallMap(old(grid.nodes)), start, target)
    ensures path != [] ==>
      && ShortestPath(WallMap(old(grid.nodes)), start, target, path)
      && InBounds(grid.nodes, target) && |path| == At(grid.nodes, target).g
    ensures Costs(grid.nodes, target) && ParentLinks(grid.nodes)
  {
    ghost var walls := WallMap(grid.nodes);
    InitialInvariant(grid.nodes, start, target);
    var openList := [start];
    while |openList| > 0
      invariant SearchInv(grid.nodes, walls, start, target, openList, {})
      decreases Unsettled(grid.nodes)
    {
      var lowIndex := LowestIndex(grid.nodes, openList);
      var currentNode := At(grid.nodes, openList[lowIndex]);
      ghost var nodes := grid.nodes;
      assert Coord(currentNode.x, currentNode.y) == openList[lowIndex];
      var current := Coord(currentNode.x, currentNode.y);
      if currentNode.x == target.x && currentNode.y == target.y {
        path := Reconstruct(grid.nodes, walls, start, target);
        FoundIsShortest(nodes, walls, start, target, openList, lowIndex, path);
        PlacedWalls(nodes, walls);
        return;
      }
      CloseKeepsInvariant(nodes, walls, start, target, openList, lowIndex);
      openList := RemoveElement(openList, current);
      grid.nodes := SetAt(grid.nodes, current, currentNode.(closed := true));
      openList := Expand(grid, walls, start, target, current, openList);
    }
    PlacedWalls(grid.nodes, walls);
    ExhaustedUnreachable(grid.nodes, walls, start, target);
    path := [];
  }
}
