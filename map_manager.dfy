/** MapManager.Start: builds the dictionary of overlay tiles over a layered
    tile map. The layers are scanned from the top down, so every (x, y)
    cell gets one overlay tile, placed on the topmost layer holding a tile
    there. The tile map is given as a predicate on its cells and as its
    cell bounds. */
module MapBuilder {
  import opened Common
  import opened Board

  /** Tilemap.HasTile: whether a cell of the layered tile map holds a tile. */
  type HasTile = Vector3Int -> bool

  /** The topmost layer between zLo and zHi (both included) holding a tile
      at (x, y), found as the scan finds it: the layers above zLo are
      looked at first. */
  function Highest(hasTile: HasTile, x: int, y: int, zLo: int, zHi: int): (r: Option<int>)
    ensures r.Some? ==> zLo <= r.value <= zHi && hasTile((x, y, r.value))
    ensures r.Some? ==> forall z :: r.value < z <= zHi ==> !hasTile((x, y, z))
    ensures r.None? ==> forall z :: zLo <= z <= zHi ==> !hasTile((x, y, z))
    decreases zHi - zLo
  {
    if zHi < zLo then None
    else
      var above := Highest(hasTile, x, y, zLo + 1, zHi);
      if above.Some? then above
      else if hasTile((x, y, zLo)) then Some(zLo)
      else None
  }

  /** Hence a cell gets a tile exactly when some layer in range holds one
      there. */
  lemma HighestExists(hasTile: HasTile, x: int, y: int, zLo: int, zHi: int)
    ensures Highest(hasTile, x, y, zLo, zHi).Some? <==> exists z :: zLo <= z <= zHi && hasTile((x, y, z))
  {
    var r := Highest(hasTile, x, y, zLo, zHi);
    if r.Some? {
      assert zLo <= r.value <= zHi && hasTile((x, y, r.value));
    }
  }

  /** Whether (x, y) lies in the scanned rectangle: min included, max
      excluded, as the two inner loops run. */
  predicate InBounds(min: Vector3Int, max: Vector3Int, k: Vector2Int) {
    min.0 <= k.0 < max.0 && min.1 <= k.1 < max.1
  }

  /** The lowest layer the scan has looked at cell k, when it is about to
      look at cell (x, y) of layer z. */
  function LowestScanned(z: int, y: int, x: int, k: Vector2Int): int {
    if k.1 < y || (k.1 == y && k.0 < x) then z else z + 1
  }

  /** The dictionary after the scan has looked at every layer down to
      LowestScanned: a cell has a tile exactly when one of those layers
      holds a tile there, and the overlay sits on the topmost of them. */
  ghost predicate Built(grid: TileMap, hasTile: HasTile, min: Vector3Int, max: Vector3Int,
                        z: int, y: int, x: int)
  {
    (forall k :: k in grid <==>
       InBounds(min, max, k) && Highest(hasTile, k.0, k.1, LowestScanned(z, y, x, k), max.2).Some?)
    && (forall k :: k in grid ==>
          grid[k].gridLocation == (k.0, k.1, Highest(hasTile, k.0, k.1, LowestScanned(z, y, x, k), max.2).value))
  }

  /** Looking at cell (x, y) of layer z when the tile map has no tile there,
      or the cell already has one, leaves the dictionary as it is. */
  lemma {:induction false} CellSkipped(grid: TileMap, hasTile: HasTile, min: Vector3Int, max: Vector3Int,
                                       z: int, y: int, x: int)
    requires z <= max.2 && InBounds(min, max, (x, y))
    requires Built(grid, hasTile, min, max, z, y, x)
    requires (x, y) in grid || !hasTile((x, y, z))
    ensures Built(grid, hasTile, min, max, z, y, x + 1)
  {
    forall k: Vector2Int | InBounds(min, max, k)
      ensures Highest(hasTile, k.0, k.1, LowestScanned(z, y, x + 1, k), max.2)
           == Highest(hasTile, k.0, k.1, LowestScanned(z, y, x, k), max.2)
    {
      if k == (x, y) {
        assert LowestScanned(z, y, x, k) == z + 1;
        assert LowestScanned(z, y, x + 1, k) == z;
      }
    }
  }

  /** Otherwise the cell gains a tile placed on layer z, the topmost layer
      holding a tile there. */
  lemma {:induction false} CellAdded(grid: TileMap, hasTile: HasTile, min: Vector3Int, max: Vector3Int,
                                     z: int, y: int, x: int, t: OverlayTile)
    requires z <= max.2 && InBounds(min, max, (x, y))
    requires Built(grid, hasTile, min, max, z, y, x)
    requires (x, y) !in grid && hasTile((x, y, z)) && t.gridLocation == (x, y, z)
    ensures Built(grid[(x, y) := t], hasTile, min, max, z, y, x + 1)
  {
    assert Highest(hasTile, x, y, z, max.2) == Some(z);
    forall k: Vector2Int | k != (x, y)
      ensures LowestScanned(z, y, x + 1, k) == LowestScanned(z, y, x, k)
    {
    }
  }

  /** Past the end of a row, the scan moves on to the next row. */
  lemma {:induction false} RowScanned(grid: TileMap, hasTile: HasTile, min: Vector3Int, max: Vector3Int,
                                      z: int, y: int, x: int)
    requires x >= max.0 && Built(grid, hasTile, min, max, z, y, x)
    ensures Built(grid, hasTile, min, max, z, y + 1, min.0)
  {
    forall k: Vector2Int | InBounds(min, max, k)
      ensures LowestScanned(z, y + 1, min.0, k) == LowestScanned(z, y, x, k)
    {
    }
  }

  /** Past the last row, the scan moves on to the layer below. */
  lemma {:induction false} LayerScanned(grid: TileMap, hasTile: HasTile, min: Vector3Int, max: Vector3Int,
                                        z: int, y: int)
    requires y >= max.1 && Built(grid, hasTile, min, max, z, y, min.0)
    ensures Built(grid, hasTile, min, max, z - 1, min.1, min.0)
  {
    forall k: Vector2Int | InBounds(min, max, k)
      ensures LowestScanned(z - 1, min.1, min.0, k) == LowestScanned(z, y, min.0, k)
    {
    }
  }

  /** Below the last layer, every layer from min.2 up has been looked at. */
  lemma {:induction false} MapScanned(grid: TileMap, hasTile: HasTile, min: Vector3Int, max: Vector3Int, z: int)
    requires z < min.2 && (z == min.2 - 1 || z == max.2)
    requires Built(grid, hasTile, min, max, z, min.1, min.0)
    ensures forall k :: k in grid <==> InBounds(min, max, k) && Highest(hasTile, k.0, k.1, min.2, max.2).Some?
    ensures forall k :: k in grid ==> grid[k].gridLocation == (k.0, k.1, Highest(hasTile, k.0, k.1, min.2, max.2).value)
  {
    forall k: Vector2Int | InBounds(min, max, k)
      ensures Highest(hasTile, k.0, k.1, LowestScanned(z, min.1, min.0, k), max.2) == Highest(hasTile, k.0, k.1, min.2, max.2)
    {
      assert LowestScanned(z, min.1, min.0, k) == z + 1;
    }
  }

  /** Every cell of before keeps its overlay tile in after: the scan only
      ever adds cells. */
  predicate Keeps(before: TileMap, after: TileMap) {
    forall k :: k in before ==> k in after && after[k] == before[k]
  }

  /** Keeping entries is transitive. */
  lemma KeepsTransitive(a: TileMap, b: TileMap, c: TileMap)
    requires Keeps(a, b) && Keeps(b, c)
    ensures Keeps(a, c)
  {
  }

  class MapManager {
    var grid: TileMap

    constructor ()
      ensures grid == map[]
    {
      grid := map[];
    }

    /** Scans z from max.2 down to min.2 (both included, as written), y and
        x from min up to max (excluded), and adds a fresh overlay tile at
        (x, y, z) when the tile map holds a tile there and (x, y) has none
        yet. */
    method Start(hasTile: HasTile, min: Vector3Int, max: Vector3Int, arrows: seq<Sprite>)
      modifies this`grid
      ensures forall k :: k in grid <==>
        InBounds(min, max, k) && Highest(hasTile, k.0, k.1, min.2, max.2).Some?
      ensures forall k :: k in grid ==>
        grid[k].gridLocation == (k.0, k.1, Highest(hasTile, k.0, k.1, min.2, max.2).value)
      ensures KeysMatch(grid)
      ensures fresh(grid.Values)
    {
      grid := map[];
      var z := max.2;
      while z >= min.2
        invariant z <= max.2 && (z >= min.2 - 1 || z == max.2)
        invariant Built(grid, hasTile, min, max, z, min.1, min.0)
        invariant fresh(grid.Values)
        decreases z - min.2
      {
        ScanLayer(hasTile, min, max, z, arrows);
        z := z - 1;
      }
      MapScanned(grid, hasTile, min, max, z);
    }

    /** The middle loop: every row of layer z. */
    method ScanLayer(hasTile: HasTile, min: Vector3Int, max: Vector3Int, z: int, arrows: seq<Sprite>)
      requires z <= max.2
      requires Built(grid, hasTile, min, max, z, min.1, min.0)
      modifies this`grid
      ensures Built(grid, hasTile, min, max, z - 1, min.1, min.0)
      ensures fresh(grid.Values - old(grid.Values))
      ensures Keeps(old(grid), grid)
    {
      var y := min.1;
      while y < max.1
        invariant min.1 <= y && (y <= max.1 || y == min.1)
        invariant Built(grid, hasTile, min, max, z, y, min.0)
        invariant fresh(grid.Values - old(grid.Values))
        invariant Keeps(old(grid), grid)
      {
        ghost var before := grid;
        ScanRow(hasTile, min, max, z, y, arrows);
        KeepsTransitive(old(grid), before, grid);
        y := y + 1;
      }
      LayerScanned(grid, hasTile, min, max, z, y);
    }

    /** The inner loop: every cell of row y of layer z. */
    method ScanRow(hasTile: HasTile, min: Vector3Int, max: Vector3Int, z: int, y: int, arrows: seq<Sprite>)
      requires z <= max.2 && min.1 <= y < max.1
      requires Built(grid, hasTile, min, max, z, y, min.0)
      modifies this`grid
      ensures Built(grid, hasTile, min, max, z, y + 1, min.0)
      ensures fresh(grid.Values - old(grid.Values))
      ensures Keeps(old(grid), grid)
    {
      var x := min.0;
      while x < max.0
        invariant min.0 <= x && (x <= max.0 || x == min.0)
        invariant Built(grid, hasTile, min, max, z, y, x)
        invariant fresh(grid.Values - old(grid.Values))
        invariant Keeps(old(grid), grid)
      {
        ghost var before := grid;
        ScanCell(hasTile, min, max, z, y, x, arrows);
        KeepsTransitive(old(grid), before, grid);
        x := x + 1;
      }
      RowScanned(grid, hasTile, min, max, z, y, x);
    }

    /** The body of the inner loop: cell (x, y) of layer z gets a fresh
        overlay tile when the tile map holds a tile there and the cell has
        none yet. */
    method ScanCell(hasTile: HasTile, min: Vector3Int, max: Vector3Int, z: int, y: int, x: int, arrows: seq<Sprite>)
      requires z <= max.2 && InBounds(min, max, (x, y))
      requires Built(grid, hasTile, min, max, z, y, x)
      modifies this`grid
      ensures Built(grid, hasTile, min, max, z, y, x + 1)
      ensures fresh(grid.Values - old(grid.Values))
      ensures Keeps(old(grid), grid)
    {
      var tileLocation := (x, y, z);
      var tileKey := (x, y);
      if hasTile(tileLocation) && tileKey !in grid {
        var overlayTile := new OverlayTile(tileLocation, arrows);
        CellAdded(grid, hasTile, min, max, z, y, x, overlayTile);
        assert Keeps(grid, grid[tileKey := overlayTile]);
        grid := grid[tileKey := overlayTile];
      } else {
        CellSkipped(grid, hasTile, min, max, z, y, x);
      }
    }
  }
}
