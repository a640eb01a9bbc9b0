/** RangeFinder: the tiles a unit can reach within a number of steps, by
    expanding a frontier one step at a time. The neighbour lookup
    (MapManager.GetSurroundingTiles) is a parameter: it maps a 2-D location
    to the list of tiles around it. */
module RangeFinding {
  import opened Common
  import opened Board

  /** The neighbour lookup the flood fill is given. */
  type Surrounding = Vector2Int -> seq<OverlayTile>

  /** The surrounding tiles of every tile of s, concatenated in order. */
  function Expand(surrounding: Surrounding, s: seq<OverlayTile>): seq<OverlayTile> {
    if s == [] then []
    else Expand(surrounding, s[..|s| - 1]) + surrounding(s[|s| - 1].Grid2DLocation())
  }

  /** The frontier after k steps, as the loop keeps it: duplicates are
      removed, but tiles seen at an earlier step are not. */
  function Frontier(surrounding: Surrounding, startingTile: OverlayTile, k: nat): (r: seq<OverlayTile>)
    ensures NoDup(r)
  {
    if k == 0 then [startingTile]
    else Distinct(Expand(surrounding, Frontier(surrounding, startingTile, k - 1)))
  }

  /** The list inRangeTiles after k steps, duplicates included. Every tile
      of the current frontier has already been collected. */
  function Collected(surrounding: Surrounding, startingTile: OverlayTile, k: nat): (r: seq<OverlayTile>)
    ensures forall t :: t in Frontier(surrounding, startingTile, k) ==> t in r
  {
    if k == 0 then [startingTile]
    else Collected(surrounding, startingTile, k - 1) + Expand(surrounding, Frontier(surrounding, startingTile, k - 1))
  }

  /** Reference definition: the tiles at the end of a walk of exactly k
      steps from the starting tile, each step going to a surrounding tile. */
  ghost function ExactlyK(surrounding: Surrounding, startingTile: OverlayTile, k: nat): set<OverlayTile> {
    if k == 0 then {startingTile}
    else set p, t | p in ExactlyK(surrounding, startingTile, k - 1) && t in surrounding(p.Grid2DLocation()) :: t
  }

  /** Reference definition: the tiles reachable in at most n steps. */
  ghost function WithinSteps(surrounding: Surrounding, startingTile: OverlayTile, n: nat): set<OverlayTile> {
    if n == 0 then ExactlyK(surrounding, startingTile, 0)
    else WithinSteps(surrounding, startingTile, n - 1) + ExactlyK(surrounding, startingTile, n)
  }

  /** Expanding one more tile of a list appends its surrounding tiles. */
  lemma ExpandPrefix(surrounding: Surrounding, s: seq<OverlayTile>, i: nat)
    requires i < |s|
    ensures Expand(surrounding, s[..i + 1]) == Expand(surrounding, s[..i]) + surrounding(s[i].Grid2DLocation())
  {
    assert s[..i + 1][..i] == s[..i];
  }

  /** A tile is in the expansion of s exactly when it surrounds some tile
      of s. */
  lemma {:induction false} ExpandMember(surrounding: Surrounding, s: seq<OverlayTile>, t: OverlayTile)
    ensures t in Expand(surrounding, s) <==>
      exists i :: 0 <= i < |s| && t in surrounding(s[i].Grid2DLocation())
  {
    if s != [] {
      var init, last := s[..|s| - 1], s[|s| - 1];
      ExpandMember(surrounding, init, t);
      if t in Expand(surrounding, s) && t !in surrounding(last.Grid2DLocation()) {
        var i :| 0 <= i < |init| && t in surrounding(init[i].Grid2DLocation());
        assert s[i] == init[i];
      }
      if exists i :: 0 <= i < |s| && t in surrounding(s[i].Grid2DLocation()) {
        var i :| 0 <= i < |s| && t in surrounding(s[i].Grid2DLocation());
        if i < |s| - 1 {
          assert s[i] == init[i];
        }
      }
    }
  }

  lemma ExpandMembers(surrounding: Surrounding, s: seq<OverlayTile>)
    ensures forall t :: t in Expand(surrounding, s) <==>
      exists i :: 0 <= i < |s| && t in surrounding(s[i].Grid2DLocation())
  {
    forall t ensures t in Expand(surrounding, s) <==>
      exists i :: 0 <= i < |s| && t in surrounding(s[i].Grid2DLocation())
    {
      ExpandMember(surrounding, s, t);
    }
  }

  /** The k-th frontier holds exactly the tiles at the end of a k-step
      walk: visited tiles are not excluded. */
  lemma {:induction false} FrontierIsExactlyK(surrounding: Surrounding, startingTile: OverlayTile, k: nat)
    ensures forall t :: t in Frontier(surrounding, startingTile, k) <==> t in ExactlyK(surrounding, startingTile, k)
  {
    if k > 0 {
      var previous := Frontier(surrounding, startingTile, k - 1);
      FrontierIsExactlyK(surrounding, startingTile, k - 1);
      DistinctMembers(Expand(surrounding, previous));
      forall t ensures t in Frontier(surrounding, startingTile, k) <==> t in ExactlyK(surrounding, startingTile, k) {
        ExpandMember(surrounding, previous, t);
        if t in Frontier(surrounding, startingTile, k) {
          var i :| 0 <= i < |previous| && t in surrounding(previous[i].Grid2DLocation());
          assert previous[i] in ExactlyK(surrounding, startingTile, k - 1);
        }
        if t in ExactlyK(surrounding, startingTile, k) {
          var p :| p in ExactlyK(surrounding, startingTile, k - 1) && t in surrounding(p.Grid2DLocation());
          var i :| 0 <= i < |previous| && previous[i] == p;
        }
      }
    }
  }

  /** The collected list holds exactly the tiles within k steps. */
  lemma {:induction false} CollectedIsWithin(surrounding: Surrounding, startingTile: OverlayTile, k: nat)
    ensures forall t :: t in Collected(surrounding, startingTile, k) <==> t in WithinSteps(surrounding, startingTile, k)
  {
    if k > 0 {
      CollectedIsWithin(surrounding, startingTile, k - 1);
      FrontierIsExactlyK(surrounding, startingTile, k);
      DistinctMembers(Expand(surrounding, Frontier(surrounding, startingTile, k - 1)));
    }
  }

  /** The steps the loop runs: range, or none when range is not positive. */
  function Steps(range: int): nat {
    if range <= 0 then 0 else range
  }

  /** Starting from the tile at location, collects the surrounding tiles of
      the frontier range times and returns the collection without
      duplicates. The location must be a key of the map (the indexer
      throws otherwise). */
  method GetTilesInRange(m: TileMap, surrounding: Surrounding, location: Vector2Int, range: int)
    returns (tiles: seq<OverlayTile>)
    requires location in m
    ensures tiles == Distinct(Collected(surrounding, m[location], Steps(range)))
  {
    var startingTile := m[location];
    var inRangeTiles := [startingTile];
    var stepCount := 0;
    var tileForPreviousStep := [startingTile];
    while stepCount < range
      invariant 0 <= stepCount <= Steps(range)
      invariant AfterSteps(surrounding, startingTile, stepCount, tileForPreviousStep, inRangeTiles)
    {
      var surroundingTiles := CollectSurrounding(surrounding, tileForPreviousStep);
      NextStep(surrounding, startingTile, stepCount, tileForPreviousStep, inRangeTiles);
      inRangeTiles := inRangeTiles + surroundingTiles;
      tileForPreviousStep := Distinct(surroundingTiles);
      stepCount := stepCount + 1;
    }
    assert stepCount == Steps(range);
    tiles := Distinct(inRangeTiles);
  }

  /** The loop's two lists after k steps. */
  ghost predicate AfterSteps(surrounding: Surrounding, startingTile: OverlayTile, k: nat,
                             frontier: seq<OverlayTile>, collected: seq<OverlayTile>) {
    frontier == Frontier(surrounding, startingTile, k) && collected == Collected(surrounding, startingTile, k)
  }

  /** One more step appends the expansion of the frontier and moves the
      frontier to it. */
  lemma NextStep(surrounding: Surrounding, startingTile: OverlayTile, k: nat,
                 frontier: seq<OverlayTile>, collected: seq<OverlayTile>)
    requires AfterSteps(surrounding, startingTile, k, frontier, collected)
    ensures AfterSteps(surrounding, startingTile, k + 1,
                       Distinct(Expand(surrounding, frontier)), collected + Expand(surrounding, frontier))
  {
  }

  /** The loop body of GetTilesInRange: the surrounding tiles of every tile
      of the frontier, appended in order. */
  method CollectSurrounding(surrounding: Surrounding, tileForPreviousStep: seq<OverlayTile>)
    returns (surroundingTiles: seq<OverlayTile>)
    ensures surroundingTiles == Expand(surrounding, tileForPreviousStep)
  {
    surroundingTiles := [];
    for i := 0 to |tileForPreviousStep|
      invariant surroundingTiles == Expand(surrounding, tileForPreviousStep[..i])
    {
      ExpandPrefix(surrounding, tileForPreviousStep, i);
      surroundingTiles := surroundingTiles + surrounding(tileForPreviousStep[i].Grid2DLocation());
    }
    assert tileForPreviousStep[..|tileForPreviousStep|] == tileForPreviousStep;
  }

  /** What GetTilesInRange returns: the starting tile first, no tile twice,
      only the starting tile when range is not positive, and exactly the
      tiles reachable in at most range steps. */
  lemma InRangeProperties(m: TileMap, surrounding: Surrounding, location: Vector2Int, range: int)
    requires location in m
    ensures var tiles := Distinct(Collected(surrounding, m[location], Steps(range)));
            |tiles| > 0 && tiles[0] == m[location] && NoDup(tiles)
            && (range <= 0 ==> tiles == [m[location]])
            && forall t :: t in tiles <==> t in WithinSteps(surrounding, m[location], Steps(range))
  {
    var collected := Collected(surrounding, m[location], Steps(range));
    CollectedIsWithin(surrounding, m[location], Steps(range));
    assert collected[0] == m[location] by {
      CollectedStartsAtStart(surrounding, m[location], Steps(range));
    }
    DistinctMembers(collected);
    if range <= 0 {
      assert collected == [m[location]];
      assert Distinct(collected) == Distinct([]) + [m[location]];
    }
  }

  /** The collected list always begins with the starting tile. */
  lemma {:induction false} CollectedStartsAtStart(surrounding: Surrounding, startingTile: OverlayTile, k: nat)
    ensures |Collected(surrounding, startingTile, k)| > 0
    ensures Collected(surrounding, startingTile, k)[0] == startingTile
  {
    if k > 0 {
      CollectedStartsAtStart(surrounding, startingTile, k - 1);
    }
  }
}
