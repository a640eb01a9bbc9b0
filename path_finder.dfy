/** PathFinder: A* search over the whole tile dictionary. The open and
    closed lists are local sequences; G, H and previousTile are written into
    the tiles themselves. */
module PathFinding {
  import opened Common
  import opened Board

  /** |dx| + |dy| between two tiles, ignoring the layer. */
  function GetManhattanDistance(start: OverlayTile, neighbour: OverlayTile): (d: nat)
    ensures d == 0 <==> start.Grid2DLocation() == neighbour.Grid2DLocation()
  {
    Abs(start.gridLocation.0 - neighbour.gridLocation.0) + Abs(start.gridLocation.1 - neighbour.gridLocation.1)
  }

  /** The distance is a metric on 2-D locations: symmetric, and never
      shortened by a detour. */
  lemma ManhattanIsMetric(a: OverlayTile, b: OverlayTile, c: OverlayTile)
    ensures GetManhattanDistance(a, b) == GetManhattanDistance(b, a)
    ensures GetManhattanDistance(a, c) <= GetManhattanDistance(a, b) + GetManhattanDistance(b, c)
  {
  }

  /** Two locations one orthogonal step apart. */
  predicate AreNeighbours(a: Vector2Int, b: Vector2Int) {
    Abs(a.0 - b.0) + Abs(a.1 - b.1) == 1
  }

  /** The tile stored under key k, as a list of zero or one tiles. */
  function LookUp(m: TileMap, k: Vector2Int): seq<OverlayTile> {
    if k in m then [m[k]] else []
  }

  /** The four locations around l, in the order they are looked up: top,
      bottom, right, left. */
  function NeighbourLocations(l: Vector2Int): (ks: seq<Vector2Int>)
    ensures |ks| == 4 && NoDup(ks)
    ensures forall k :: k in ks <==> AreNeighbours(l, k)
  {
    var ks := [(l.0, l.1 + 1), (l.0, l.1 - 1), (l.0 + 1, l.1), (l.0 - 1, l.1)];
    assert forall k :: AreNeighbours(l, k) ==> k == ks[0] || k == ks[1] || k == ks[2] || k == ks[3];
    ks
  }

  /** The tiles stored under the keys ks, in order, skipping missing keys. */
  function LookUpAll(m: TileMap, ks: seq<Vector2Int>): (r: seq<OverlayTile>)
    ensures |r| <= |ks|
    ensures forall t :: t in r ==> t in m.Values
  {
    if ks == [] then [] else LookUp(m, ks[0]) + LookUpAll(m, ks[1..])
  }

  /** Every tile found is stored in the map under one of the keys, which is
      its own location. */
  lemma {:induction false} LookUpAllSound(m: TileMap, ks: seq<Vector2Int>)
    requires KeysMatch(m)
    ensures forall t :: t in LookUpAll(m, ks) ==>
      t.Grid2DLocation() in ks && t.Grid2DLocation() in m && m[t.Grid2DLocation()] == t
  {
    if ks != [] {
      LookUpAllSound(m, ks[1..]);
      assert forall k :: k in ks[1..] ==> k in ks;
    }
  }

  /** Every key present in the map contributes its tile. */
  lemma {:induction false} LookUpAllComplete(m: TileMap, ks: seq<Vector2Int>)
    ensures forall k :: k in ks && k in m ==> m[k] in LookUpAll(m, ks)
  {
    if ks != [] {
      LookUpAllComplete(m, ks[1..]);
      assert forall k :: k in ks ==> k == ks[0] || k in ks[1..];
    }
  }

  /** Distinct keys give distinct tiles, since the map stores each tile
      under its own location only. */
  lemma {:induction false} LookUpAllNoDup(m: TileMap, ks: seq<Vector2Int>)
    requires KeysMatch(m) && NoDup(ks)
    ensures NoDup(LookUpAll(m, ks))
  {
    if ks != [] {
      var rest := LookUpAll(m, ks[1..]);
      assert NoDup(ks[1..]) by {
        forall i, j | 0 <= i < j < |ks[1..]| ensures ks[1..][i] != ks[1..][j] {
          assert ks[i + 1] != ks[j + 1];
        }
      }
      LookUpAllNoDup(m, ks[1..]);
      LookUpAllSound(m, ks[1..]);
      if ks[0] in m {
        assert ks[0] !in ks[1..] by {
          forall j | 0 <= j < |ks[1..]| ensures ks[1..][j] != ks[0] {
            assert ks[j + 1] != ks[0];
          }
        }
        assert m[ks[0]].Grid2DLocation() == ks[0];
        var r := [m[ks[0]]] + rest;
        forall i, j | 0 <= i < j < |r| ensures r[i] != r[j] {
          if i == 0 {
            assert r[j] in rest;
          } else {
            assert r[i] == rest[i - 1] && r[j] == rest[j - 1];
          }
        }
      }
    }
  }

  /** The map's tiles around l. Elevation and blocking are not looked at
      here. */
  function GetNeighbourTiles(m: TileMap, l: Vector2Int): (r: seq<OverlayTile>)
    ensures |r| <= 4
    ensures forall t :: t in r ==> t in m.Values
  {
    LookUpAll(m, NeighbourLocations(l))
  }

  /** ts lists exactly the map's tiles one orthogonal step from l. */
  ghost predicate ListsNeighbours(m: TileMap, l: Vector2Int, ts: seq<OverlayTile>) {
    (forall t :: t in ts ==> t.Grid2DLocation() in m && m[t.Grid2DLocation()] == t && AreNeighbours(l, t.Grid2DLocation()))
    && (forall k :: k in m && AreNeighbours(l, k) ==> m[k] in ts)
  }

  /** The neighbour list holds every map tile one orthogonal step from l
      and nothing else. */
  lemma NeighbourTilesListed(m: TileMap, l: Vector2Int)
    requires KeysMatch(m)
    ensures ListsNeighbours(m, l, GetNeighbourTiles(m, l))
  {
    LookUpAllSound(m, NeighbourLocations(l));
    LookUpAllComplete(m, NeighbourLocations(l));
  }

  /** No tile is in the neighbour list twice. */
  lemma NeighbourTilesNoDup(m: TileMap, l: Vector2Int)
    requires KeysMatch(m)
    ensures NoDup(GetNeighbourTiles(m, l))
  {
    LookUpAllNoDup(m, NeighbourLocations(l));
  }

  /** A move the search may make: onto a tile of the map one orthogonal
      step away that is not blocked and at most one layer higher or lower. */
  ghost predicate Step(m: TileMap, from: OverlayTile, to: OverlayTile)
    reads to`isBlocked
  {
    to.Grid2DLocation() in m && m[to.Grid2DLocation()] == to
    && AreNeighbours(from.Grid2DLocation(), to.Grid2DLocation())
    && !to.isBlocked && Abs(from.gridLocation.2 - to.gridLocation.2) <= 1
  }

  /** path leads from start (excluded) by such moves. */
  ghost predicate IsWalk(m: TileMap, start: OverlayTile, path: seq<OverlayTile>)
    reads path`isBlocked
  {
    (|path| > 0 ==> Step(m, start, path[0]))
    && forall i :: 0 <= i < |path| - 1 ==> Step(m, path[i], path[i + 1])
  }

  /** The tiles stored under a list of keys. */
  function TilesAt(m: TileMap, keys: seq<Vector2Int>): (tiles: seq<OverlayTile>)
    requires forall i :: 0 <= i < |keys| ==> keys[i] in m
    ensures |tiles| == |keys| && forall i :: 0 <= i < |keys| ==> tiles[i] == m[keys[i]]
  {
    seq(|keys|, i requires 0 <= i < |keys| => m[keys[i]])
  }

  /** Some walk of legal moves leads from start to end (stated over the
      walk's keys). */
  ghost predicate Reachable(m: TileMap, start: OverlayTile, end: OverlayTile)
    reads m.Values`isBlocked
  {
    exists keys: seq<Vector2Int> ::
      (forall i :: 0 <= i < |keys| ==> keys[i] in m) && |keys| > 0
      && IsWalk(m, start, TilesAt(m, keys)) && m[keys[|keys| - 1]] == end
  }

  /** A walk is a witness of reachability. */
  lemma {:induction false} WalkReaches(m: TileMap, start: OverlayTile, path: seq<OverlayTile>)
    requires IsWalk(m, start, path) && |path| > 0
    ensures Reachable(m, start, path[|path| - 1])
  {
    var keys := seq(|path|, i requires 0 <= i < |path| => path[i].Grid2DLocation());
    forall i | 0 <= i < |path| ensures keys[i] in m && m[keys[i]] == path[i] {
      assert Step(m, if i == 0 then start else path[i - 1], path[i]);
    }
    assert TilesAt(m, keys) == path;
  }

  /** The index OrderBy(F).First() picks: a least F, the earliest of equals
      (OrderBy is a stable sort). */
  function FirstLowestF(openList: seq<OverlayTile>): (i: nat)
    requires |openList| > 0
    reads openList
    ensures i < |openList|
    ensures forall j :: 0 <= j < |openList| ==> openList[i].F() <= openList[j].F()
    ensures forall j :: 0 <= j < i ==> openList[j].F() > openList[i].F()
  {
    if |openList| == 1 then 0
    else
      var k := FirstLowestF(openList[..|openList| - 1]);
      if openList[|openList| - 1].F() < openList[k].F() then |openList| - 1 else k
  }

  /** What the search has written into tile t: a predecessor one legal
      move away, and G and H as the Manhattan distances from the start and
      to the end. */
  ghost predicate Settled(m: TileMap, start: OverlayTile, end: OverlayTile, t: OverlayTile)
    reads t`isBlocked, t`previousTile, t`G, t`H
  {
    t.previousTile != null && Step(m, t.previousTile, t)
    && t.G == GetManhattanDistance(start, t) && t.H == GetManhattanDistance(end, t)
  }

  /** The cost F of a settled tile is its distance from start plus its
      distance to end, so it is never below the distance from start to
      end. */
  lemma SettledCost(m: TileMap, start: OverlayTile, end: OverlayTile, t: OverlayTile)
    requires Settled(m, start, end, t)
    ensures t.F() == GetManhattanDistance(start, t) + GetManhattanDistance(end, t)
    ensures t.F() >= GetManhattanDistance(start, end)
  {
    ManhattanIsMetric(start, t, end);
    ManhattanIsMetric(end, t, start);
  }

  /** The closed list as the search builds it: start first, then tiles
      that are settled and whose predecessor, at index parent[k], was closed
      before them. */
  ghost predicate ClosedChain(m: TileMap, start: OverlayTile, end: OverlayTile,
                              closed: seq<OverlayTile>, parent: seq<nat>)
    reads closed`isBlocked, closed`previousTile, closed`G, closed`H
  {
    |closed| > 0 && closed[0] == start && NoDup(closed) && |parent| == |closed|
    && forall k :: 0 < k < |closed| ==> ChainLink(m, start, end, closed, parent, k)
  }

  /** The k-th closed tile is settled and linked back. */
  ghost predicate ChainLink(m: TileMap, start: OverlayTile, end: OverlayTile,
                            closed: seq<OverlayTile>, parent: seq<nat>, k: nat)
    requires k < |closed| == |parent|
    reads {closed[k]}`isBlocked, {closed[k]}`previousTile, {closed[k]}`G, {closed[k]}`H
  {
    Backlink(closed, parent, k) && Settled(m, start, end, closed[k])
  }

  /** The predecessor of the k-th closed tile is the earlier closed tile at
      index parent[k]. */
  ghost predicate Backlink(closed: seq<OverlayTile>, parent: seq<nat>, k: nat)
    requires k < |closed| == |parent|
    reads {closed[k]}`previousTile
  {
    parent[k] < k && closed[k].previousTile == closed[parent[k]]
  }

  /** Each tile's previousTile is the tile before it in path, and the
      first tile's is start. */
  ghost predicate LinkedFrom(start: OverlayTile, path: seq<OverlayTile>)
    reads path`previousTile
  {
    (|path| > 0 ==> path[0].previousTile == start)
    && forall i :: 0 < i < |path| ==> path[i].previousTile == path[i - 1]
  }

  /** Follows previousTile links back from end to start and reverses them.
      The ghost closed list and parent indices show that the walk back
      stops: every closed tile's predecessor is closed before it. */
  method GetFinishedList(ghost m: TileMap, start: OverlayTile, end: OverlayTile,
                         ghost closed: seq<OverlayTile>, ghost parent: seq<nat>)
    returns (finishedList: seq<OverlayTile>)
    requires ClosedChain(m, start, end, closed, parent) && end in closed
    ensures finishedList == [] <==> end == start
    ensures finishedList != [] ==> finishedList[|finishedList| - 1] == end
    ensures LinkedFrom(start, finishedList)
    ensures forall t :: t in finishedList ==> t in closed && t != start
    ensures NoDup(finishedList)
    ensures finishedList == [] <==> start == end || !Reachable(m, start, end)
    ensures finishedList != [] ==> IsWalk(m, start, finishedList)
    ensures forall t :: t in finishedList ==>
      t.G == GetManhattanDistance(start, t) && t.H == GetManhattanDistance(end, t)
  {
    ChainBacklinks(m, start, end, closed, parent);
    var backwards: seq<OverlayTile> := [];
    var currentTile := end;
    ghost var idx: nat := IndexOf(closed, end);
    ghost var ids: seq<nat> := [];
    while currentTile != start
      invariant 0 <= idx < |closed|
      invariant closed[idx] == currentTile
      invariant |ids| == |backwards|
      invariant forall k :: 0 <= k < |ids| ==> idx < ids[k] < |closed| && closed[ids[k]] == backwards[k]
      invariant NoDup(backwards)
      invariant backwards == [] ==> currentTile == end
      invariant backwards != [] ==> backwards[0] == end && backwards[|backwards| - 1].previousTile == currentTile
      invariant forall k :: 0 <= k < |backwards| - 1 ==> backwards[k].previousTile == backwards[k + 1]
      decreases idx
    {
      forall k | 0 <= k < |backwards| ensures backwards[k] != currentTile {
        assert closed[ids[k]] == backwards[k] && ids[k] != idx;
      }
      backwards := backwards + [currentTile];
      ids := ids + [idx];
      assert idx > 0 && Backlink(closed, parent, idx);
      currentTile := currentTile.previousTile;
      idx := parent[idx];
    }
    finishedList := Reversed(backwards);
    forall t | t in backwards ensures t in closed && t != start {
      var k :| 0 <= k < |backwards| && backwards[k] == t;
      assert closed[ids[k]] == t && ids[k] > 0;
    }
    BacktrackReversed(start, end, backwards);
    FinishedListIsWalk(m, start, end, closed, parent, finishedList);
  }

  /** Reversing a chain of previousTile links followed back from end to
      the tile after start gives the chain from start's successor to end. */
  lemma BacktrackReversed(start: OverlayTile, end: OverlayTile, backwards: seq<OverlayTile>)
    requires backwards == [] ==> end == start
    requires backwards != [] ==> backwards[0] == end && backwards[|backwards| - 1].previousTile == start
    requires forall k :: 0 <= k < |backwards| - 1 ==> backwards[k].previousTile == backwards[k + 1]
    requires NoDup(backwards)
    requires forall t :: t in backwards ==> t != start
    ensures var r := Reversed(backwards);
      (r == [] <==> end == start) && (r != [] ==> r[|r| - 1] == end)
      && LinkedFrom(start, r)
      && NoDup(r) && (forall t :: t in r <==> t in backwards)
  {
    var r := Reversed(backwards);
    var n := |backwards|;
    if n > 0 {
      assert backwards[0] in backwards;
    }
    if n > 0 {
      assert r[0] == backwards[n - 1];
    }
    forall i | 0 < i < n ensures r[i].previousTile == r[i - 1] {
      assert r[i] == backwards[n - 1 - i] && r[i - 1] == backwards[n - i];
    }
    forall k, l | 0 <= k < l < n ensures r[k] != r[l] {
      assert r[k] == backwards[n - 1 - k] && r[l] == backwards[n - 1 - l];
    }
    forall t ensures t in r <==> t in backwards {
      if t in r {
        var i :| 0 <= i < n && r[i] == t;
        assert backwards[n - 1 - i] == t;
      }
      if t in backwards {
        var i :| 0 <= i < n && backwards[i] == t;
        assert r[n - 1 - i] == t;
      }
    }
  }

  /** If every legal move out of a set of tiles stays inside it, so does
      every walk from a start inside it. */
  lemma {:induction false} WalksStayInside(m: TileMap, start: OverlayTile, inside: seq<OverlayTile>, path: seq<OverlayTile>)
    requires start in inside
    requires forall c, b :: c in inside && b in m.Values && Step(m, c, b) ==> b in inside
    requires IsWalk(m, start, path)
    ensures forall t :: t in path ==> t in inside
  {
    if path != [] {
      var init := path[..|path| - 1];
      assert IsWalk(m, start, init);
      WalksStayInside(m, start, inside, init);
      var last := path[|path| - 1];
      if |path| == 1 {
        assert Step(m, start, last);
      } else {
        assert Step(m, init[|init| - 1], last);
      }
      assert path == init + [last];
    }
  }

  /** The search between two iterations: the open and closed lists hold
      tiles of the map (or start), no tile twice and none in both; closed
      tiles form a chain back to start; every open tile other than start is
      settled with a closed predecessor; and every legal move out of a
      closed tile leads to an open or closed tile. */
  ghost predicate SearchState(m: TileMap, start: OverlayTile, end: OverlayTile,
                              openList: seq<OverlayTile>, closedList: seq<OverlayTile>, parent: seq<nat>)
    reads m.Values`isBlocked, openList`isBlocked, openList`previousTile, openList`G, openList`H
    reads closedList`isBlocked, closedList`previousTile, closedList`G, closedList`H
  {
    (forall t :: t in openList ==> t in m.Values || t == start) && (forall t :: t in closedList ==> t in m.Values || t == start)
    && NoDup(openList) && (forall t :: t in openList ==> t !in closedList)
    && (closedList == [] ==> openList == [start] && parent == [])
    && (closedList != [] ==> ClosedChain(m, start, end, closedList, parent))
    && (forall t :: t in openList && t != start ==> Settled(m, start, end, t) && t.previousTile in closedList)
    && (forall c, b :: c in closedList && b in m.Values && Step(m, c, b) ==> b in openList || b in closedList)
  }

  /** The search just after current has been closed and before its
      neighbours are looked at: as SearchState, except that the moves out
      of current are not yet accounted for. */
  ghost predicate ClosingState(m: TileMap, start: OverlayTile, end: OverlayTile,
                               openList: seq<OverlayTile>, closedList: seq<OverlayTile>, parent: seq<nat>,
                               current: OverlayTile)
    reads m.Values`isBlocked, openList`isBlocked, openList`previousTile, openList`G, openList`H
    reads closedList`isBlocked, closedList`previousTile, closedList`G, closedList`H
  {
    (forall t :: t in openList ==> t in m.Values || t == start) && (forall t :: t in closedList ==> t in m.Values || t == start)
    && NoDup(openList) && (forall t :: t in openList ==> t !in closedList)
    && ClosedChain(m, start, end, closedList, parent) && current in closedList
    && (forall t :: t in openList && t != start ==> Settled(m, start, end, t) && t.previousTile in closedList)
    && (forall c, b :: c in closedList && c != current && b in m.Values && Step(m, c, b) ==> b in openList || b in closedList)
  }

  /** Closing the i-th open tile: it moves to the end of the closed list,
      with its predecessor's index as its parent. */
  lemma {:induction false} CloseTile(m: TileMap, start: OverlayTile, end: OverlayTile,
                                     openList: seq<OverlayTile>, closedList: seq<OverlayTile>, parent: seq<nat>, i: nat)
    returns (parent': seq<nat>)
    requires i < |openList|
    requires SearchState(m, start, end, openList, closedList, parent)
    ensures ClosingState(m, start, end, openList[..i] + openList[i + 1..], closedList + [openList[i]],
                         parent', openList[i])
  {
    var t := openList[i];
    RemoveAtNoDup(openList, i);
    if closedList == [] {
      parent' := [0];
    } else {
      parent' := ExtendChain(m, start, end, closedList, parent, t);
    }
  }

  /** A settled tile whose predecessor is closed extends the closed chain,
      with its predecessor's index as its parent. */
  lemma ExtendChain(m: TileMap, start: OverlayTile, end: OverlayTile,
                    closed: seq<OverlayTile>, parent: seq<nat>, t: OverlayTile)
    returns (parent': seq<nat>)
    requires ClosedChain(m, start, end, closed, parent)
    requires t !in closed && Settled(m, start, end, t) && t.previousTile in closed
    ensures ClosedChain(m, start, end, closed + [t], parent')
  {
    var closed' := closed + [t];
    parent' := parent + [IndexOf(closed, t.previousTile)];
    forall k | 0 < k < |closed'| ensures ChainLink(m, start, end, closed', parent', k) {
      if k < |closed| {
        assert ChainLink(m, start, end, closed, parent, k);
      }
    }
    AppendNoDup(closed, t);
  }

  /** Every legal move from the current tile to one of the visited
      neighbours leads to an open or closed tile. */
  ghost predicate Covered(m: TileMap, currentOverlayTile: OverlayTile, visited: seq<OverlayTile>,
                          openList: seq<OverlayTile>, closedList: seq<OverlayTile>)
    reads visited`isBlocked
  {
    forall t :: t in visited && Step(m, currentOverlayTile, t) ==> t in openList || t in closedList
  }

  /** A neighbour FindPath's inner loop passes over: blocked, already
      closed, or more than one layer above or below the current tile. */
  predicate Skipped(closedList: seq<OverlayTile>, currentOverlayTile: OverlayTile, neighbour: OverlayTile)
    reads neighbour`isBlocked
  {
    neighbour.isBlocked || neighbour in closedList
    || Abs(currentOverlayTile.gridLocation.2 - neighbour.gridLocation.2) > 1
  }

  /** One pass of FindPath's inner loop: a neighbour that is blocked,
      closed, or more than one layer away is skipped; otherwise it gets G,
      H and previousTile and joins the open list if it is not there yet.
      The search stays in its closing state, and a legal move to the
      neighbour is now accounted for. */
  method VisitNeighbour(m: TileMap, start: OverlayTile, end: OverlayTile, currentOverlayTile: OverlayTile,
                        neighbour: OverlayTile, closedList: seq<OverlayTile>, ghost parent: seq<nat>,
                        ghost visited: seq<OverlayTile>, openList: seq<OverlayTile>)
    returns (newOpen: seq<OverlayTile>)
    requires neighbour.Grid2DLocation() in m && m[neighbour.Grid2DLocation()] == neighbour
    requires AreNeighbours(currentOverlayTile.Grid2DLocation(), neighbour.Grid2DLocation())
    requires ClosingState(m, start, end, openList, closedList, parent, currentOverlayTile)
    requires Covered(m, currentOverlayTile, visited, openList, closedList)
    modifies neighbour`G, neighbour`H, neighbour`previousTile
    ensures ClosingState(m, start, end, newOpen, closedList, parent, currentOverlayTile)
    ensures forall t :: t in openList ==> t in newOpen
    ensures forall t :: t in newOpen ==> t in openList || t == neighbour
    ensures Covered(m, currentOverlayTile, visited + [neighbour], newOpen, closedList)
    ensures Skipped(closedList, currentOverlayTile, neighbour) ==>
      newOpen == openList && neighbour.G == old(neighbour.G) && neighbour.H == old(neighbour.H)
      && neighbour.previousTile == old(neighbour.previousTile)
    ensures !Skipped(closedList, currentOverlayTile, neighbour) ==>
      neighbour.G == GetManhattanDistance(start, neighbour) && neighbour.H == GetManhattanDistance(end, neighbour)
      && neighbour.previousTile == currentOverlayTile
      && newOpen == if neighbour in openList then openList else openList + [neighbour]
  {
    newOpen := openList;
    if Skipped(closedList, currentOverlayTile, neighbour) {
      assert forall t :: t in visited + [neighbour] ==> t in visited || t == neighbour;
      return;
    }
    neighbour.G, neighbour.H, neighbour.previousTile :=
      GetManhattanDistance(start, neighbour), GetManhattanDistance(end, neighbour), currentOverlayTile;
    if neighbour !in newOpen {
      AppendNoDup(newOpen, neighbour);
      newOpen := newOpen + [neighbour];
    }
    forall t | t in newOpen && t != start ensures Settled(m, start, end, t) && t.previousTile in closedList {
      if t != neighbour {
        assert t in openList;
      }
    }
    forall k | 0 < k < |closedList| ensures ChainLink(m, start, end, closedList, parent, k) {
      assert old(ChainLink(m, start, end, closedList, parent, k));
      assert closedList[k] in closedList;
    }
    forall t | t in visited + [neighbour] && Step(m, currentOverlayTile, t) ensures t in newOpen || t in closedList {
      if t != neighbour {
        assert t in visited;
      }
    }
  }

  /** Once every neighbour has been visited, the moves out of the current
      tile are accounted for too: the search is back in SearchState. */
  lemma NeighboursVisited(m: TileMap, start: OverlayTile, end: OverlayTile, currentOverlayTile: OverlayTile,
                          neighbourTiles: seq<OverlayTile>, closedList: seq<OverlayTile>, parent: seq<nat>,
                          openList: seq<OverlayTile>)
    requires ListsNeighbours(m, currentOverlayTile.Grid2DLocation(), neighbourTiles)
    requires ClosingState(m, start, end, openList, closedList, parent, currentOverlayTile)
    requires Covered(m, currentOverlayTile, neighbourTiles, openList, closedList)
    ensures SearchState(m, start, end, openList, closedList, parent)
  {
    forall c, b | c in closedList && b in m.Values && Step(m, c, b) ensures b in openList || b in closedList {
      if c == currentOverlayTile {
        assert m[b.Grid2DLocation()] == b;
        assert b in neighbourTiles;
      }
    }
  }

  /** The tiles appended to openList so far are neighbours from the first j
      of neighbourTiles, in the order they are listed there. */
  ghost predicate AppendedInOrder(openList: seq<OverlayTile>, neighbourTiles: seq<OverlayTile>, j: nat,
                                  newOpen: seq<OverlayTile>)
  {
    j <= |neighbourTiles| && |openList| <= |newOpen|
    && (forall p :: |openList| <= p < |newOpen| ==>
          newOpen[p] in neighbourTiles[..j] && IndexOf(neighbourTiles, newOpen[p]) < j)
    && (forall p, q :: |openList| <= p < q < |newOpen| ==>
          IndexOf(neighbourTiles, newOpen[p]) < IndexOf(neighbourTiles, newOpen[q]))
  }

  /** Visiting the j-th neighbour either leaves the open list alone or
      appends that neighbour, which comes after every one appended before. */
  lemma AppendInOrder(openList: seq<OverlayTile>, neighbourTiles: seq<OverlayTile>, j: nat,
                      before: seq<OverlayTile>, newOpen: seq<OverlayTile>)
    requires j < |neighbourTiles| && AppendedInOrder(openList, neighbourTiles, j, before)
    requires newOpen == before
          || (newOpen == before + [neighbourTiles[j]] && neighbourTiles[j] !in neighbourTiles[..j])
    ensures AppendedInOrder(openList, neighbourTiles, j + 1, newOpen)
  {
    var n := neighbourTiles[j];
    assert neighbourTiles[..j + 1] == neighbourTiles[..j] + [n];
  }

  /** The inner loop of FindPath over the current tile's neighbours: every
      legal move out of the current tile that does not lead back into the
      closed list gets G, H and previousTile set and joins the open list if
      it is not there yet.  */
  method UpdateNeighbours(m: TileMap, start: OverlayTile, end: OverlayTile,
                          currentOverlayTile: OverlayTile, neighbourTiles: seq<OverlayTile>,
                          closedList: seq<OverlayTile>, ghost parent: seq<nat>, openList: seq<OverlayTile>)
    returns (newOpen: seq<OverlayTile>)
    requires ListsNeighbours(m, currentOverlayTile.Grid2DLocation(), neighbourTiles)
    requires ClosingState(m, start, end, openList, closedList, parent, currentOverlayTile)
    modifies m.Values`G, m.Values`H, m.Values`previousTile
    ensures SearchState(m, start, end, newOpen, closedList, parent)
    ensures |openList| <= |newOpen| && newOpen[..|openList|] == openList
    ensures forall t :: t in newOpen ==> t in openList || (t in neighbourTiles && !Skipped(closedList, currentOverlayTile, t))
    ensures forall t :: t in neighbourTiles && !Skipped(closedList, currentOverlayTile, t) ==>
      t in newOpen && t.previousTile == currentOverlayTile
      && t.G == GetManhattanDistance(start, t) && t.H == GetManhattanDistance(end, t)
    ensures forall t :: t in m.Values && (t !in neighbourTiles || Skipped(closedList, currentOverlayTile, t)) ==>
      t.G == old(t.G) && t.H == old(t.H) && t.previousTile == old(t.previousTile)
    ensures forall p, q :: |openList| <= p < q < |newOpen| ==>
      newOpen[p] in neighbourTiles && newOpen[q] in neighbourTiles
      && IndexOf(neighbourTiles, newOpen[p]) < IndexOf(neighbourTiles, newOpen[q])
  {
    newOpen := openList;
    for j := 0 to |neighbourTiles|
      invariant ClosingState(m, start, end, newOpen, closedList, parent, currentOverlayTile)
      invariant |openList| <= |newOpen| && newOpen[..|openList|] == openList
      invariant forall t :: t in newOpen ==> t in openList || (t in neighbourTiles[..j] && !Skipped(closedList, currentOverlayTile, t))
      invariant forall t :: t in neighbourTiles[..j] && !Skipped(closedList, currentOverlayTile, t) ==>
        t in newOpen && t.previousTile == currentOverlayTile
        && t.G == GetManhattanDistance(start, t) && t.H == GetManhattanDistance(end, t)
      invariant forall t :: t in m.Values && (t !in neighbourTiles[..j] || Skipped(closedList, currentOverlayTile, t)) ==>
        t.G == old(t.G) && t.H == old(t.H) && t.previousTile == old(t.previousTile)
      invariant Covered(m, currentOverlayTile, neighbourTiles[..j], newOpen, closedList)
      invariant AppendedInOrder(openList, neighbourTiles, j, newOpen)
    {
      var neighbour := neighbourTiles[j];
      assert neighbour in neighbourTiles;
      TakeOneMore(neighbourTiles, j);
      ghost var before := newOpen;
      label Visit:
      newOpen := VisitNeighbour(m, start, end, currentOverlayTile, neighbour, closedList, parent,
                                neighbourTiles[..j], newOpen);
      if newOpen != before {
        assert newOpen == before + [neighbour] && neighbour !in before;
        assert neighbour !in neighbourTiles[..j];
      }
      AppendInOrder(openList, neighbourTiles, j, before, newOpen);
      forall t | t in neighbourTiles[..j + 1] && !Skipped(closedList, currentOverlayTile, t)
        ensures t in newOpen && t.previousTile == currentOverlayTile
          && t.G == GetManhattanDistance(start, t) && t.H == GetManhattanDistance(end, t)
      {
        if t != neighbour {
          assert t in neighbourTiles[..j] && t in before;
        }
      }
      forall t | t in m.Values && (t !in neighbourTiles[..j + 1] || Skipped(closedList, currentOverlayTile, t))
        ensures t.G == old(t.G) && t.H == old(t.H) && t.previousTile == old(t.previousTile)
      {
        if t != neighbour {
          assert t.G == old@Visit(t.G) && t.H == old@Visit(t.H) && t.previousTile == old@Visit(t.previousTile);
        }
      }
    }
    assert neighbourTiles[..|neighbourTiles|] == neighbourTiles;
    NeighboursVisited(m, start, end, currentOverlayTile, neighbourTiles, closedList, parent, newOpen);
  }

  /** A* from start to end. The result is empty when start is end or end
      cannot be reached; otherwise it is a walk of legal moves that ends at
      end, leaves out start, visits no tile twice, and is the chain of
      previousTile links the search left behind. */
  method FindPath(m: TileMap, start: OverlayTile, end: OverlayTile) returns (path: seq<OverlayTile>)
    requires KeysMatch(m)
    modifies m.Values`G, m.Values`H, m.Values`previousTile
    ensures path == [] <==> start == end || !Reachable(m, start, end)
    ensures path != [] ==> IsWalk(m, start, path) && path[|path| - 1] == end
    ensures start !in path && NoDup(path)
    ensures LinkedFrom(start, path)
    ensures forall t :: t in path ==>
      t.G == GetManhattanDistance(start, t) && t.H == GetManhattanDistance(end, t)
  {
    ghost var universe := m.Values + {start};
    var openList := [start];
    var closedList: seq<OverlayTile> := [];
    ghost var parent: seq<nat> := [];
    while |openList| > 0
      invariant SearchState(m, start, end, openList, closedList, parent)
      invariant end !in closedList
      decreases |universe| - |closedList|
    {
      var i := FirstLowestF(openList);
      var currentOverlayTile := openList[i];
      parent := CloseTile(m, start, end, openList, closedList, parent, i);
      openList := openList[..i] + openList[i + 1..];
      closedList := closedList + [currentOverlayTile];
      NoDupBounded(closedList, universe);

      if currentOverlayTile == end {
        path := GetFinishedList(m, start, end, closedList, parent);
        return;
      }

      var neighbourTiles := GetNeighbourTiles(m, currentOverlayTile.Grid2DLocation());
      NeighbourTilesListed(m, currentOverlayTile.Grid2DLocation());
      openList := UpdateNeighbours(m, start, end, currentOverlayTile, neighbourTiles, closedList, parent, openList);
    }
    path := [];
    ExhaustedSearch(m, start, end, closedList, parent);
  }

  /** The closed chain records, for every tile after start, the index of
      its predecessor. */
  lemma ChainBacklinks(m: TileMap, start: OverlayTile, end: OverlayTile, closed: seq<OverlayTile>, parent: seq<nat>)
    requires ClosedChain(m, start, end, closed, parent)
    ensures forall k :: 0 < k < |closed| ==> Backlink(closed, parent, k)
  {
    forall k | 0 < k < |closed| ensures Backlink(closed, parent, k) {
      assert ChainLink(m, start, end, closed, parent, k);
    }
  }

  /** A search whose open list ran empty without closing end has closed
      every tile reachable from start, so end is not reachable. */
  lemma ExhaustedSearch(m: TileMap, start: OverlayTile, end: OverlayTile,
                        closedList: seq<OverlayTile>, parent: seq<nat>)
    requires SearchState(m, start, end, [], closedList, parent)
    requires end !in closedList
    ensures start != end && !Reachable(m, start, end)
  {
    assert closedList[0] == start;
    forall keys: seq<Vector2Int> | (forall i :: 0 <= i < |keys| ==> keys[i] in m) && |keys| > 0
      && IsWalk(m, start, TilesAt(m, keys))
      ensures m[keys[|keys| - 1]] != end
    {
      WalksStayInside(m, start, closedList, TilesAt(m, keys));
    }
  }

  /** The backtracked list of a successful search is what FindPath
      promises: a walk of legal moves to end, so end was reachable, whose
      tiles carry their distances. */
  lemma {:induction false} FinishedListIsWalk(m: TileMap, start: OverlayTile, end: OverlayTile,
                                              closed: seq<OverlayTile>, parent: seq<nat>, path: seq<OverlayTile>)
    requires ClosedChain(m, start, end, closed, parent)
    requires path == [] <==> end == start
    requires LinkedFrom(start, path)
    requires forall t :: t in path ==> t in closed && t != start
    requires path != [] ==> path[|path| - 1] == end
    ensures path == [] <==> start == end || !Reachable(m, start, end)
    ensures path != [] ==> IsWalk(m, start, path) && path[|path| - 1] == end
    ensures forall t :: t in path ==>
      t.G == GetManhattanDistance(start, t) && t.H == GetManhattanDistance(end, t)
  {
    forall t | t in path ensures Settled(m, start, end, t) {
      var k :| 0 <= k < |closed| && closed[k] == t;
      assert ChainLink(m, start, end, closed, parent, k);
    }
    if path != [] {
      assert path[0] in path;
      assert Settled(m, start, end, path[0]) && path[0].previousTile == start;
    }
    forall i | 0 <= i < |path| - 1 ensures Step(m, path[i], path[i + 1]) {
      assert path[i + 1] in path;
      assert Settled(m, start, end, path[i + 1]) && path[i + 1].previousTile == path[i];
    }
    if path != [] {
      WalkReaches(m, start, path);
    }
  }
}
