/** CharacterSpawnManager: instantiates every character prefab and stands
    it on the tile at its spawning location, when the map has one. */
module CharacterSpawning {
  import opened Common
  import opened Board

  /** The stats a character prefab is configured with. */
  datatype CharacterPrefab = CharacterPrefab(
    spawningTileLocation: Vector2Int, isEnemy: bool, attack: int, defense: int,
    range: int, attackRange: int, maxHealth: int)

  /** Whether prefab p is placed on tile t of map m. */
  predicate PlacedOn(m: TileMap, p: CharacterPrefab, t: OverlayTile) {
    p.spawningTileLocation in m && m[p.spawningTileLocation] == t
  }

  /** The index of the last of the first n prefabs placed on t: the one
      whose character the tile ends up holding. */
  function LastPlacedOn(m: TileMap, prefabs: seq<CharacterPrefab>, t: OverlayTile, n: nat): (r: Option<nat>)
    requires n <= |prefabs|
    ensures r.Some? ==> r.value < n && PlacedOn(m, prefabs[r.value], t)
    ensures r.Some? ==> forall j :: r.value < j < n ==> !PlacedOn(m, prefabs[j], t)
    ensures r.None? ==> forall j :: 0 <= j < n ==> !PlacedOn(m, prefabs[j], t)
  {
    if n == 0 then None
    else if PlacedOn(m, prefabs[n - 1], t) then Some(n - 1)
    else LastPlacedOn(m, prefabs, t, n - 1)
  }

  /** When every tile is stored under its own location and no two prefabs
      that land on the map share a spawning location, every placed
      character is the one its tile holds. */
  lemma {:induction false} DistinctSpawnsKeepTheirTiles(m: TileMap, prefabs: seq<CharacterPrefab>, i: nat)
    requires KeysMatch(m)
    requires i < |prefabs| && prefabs[i].spawningTileLocation in m
    requires forall j, k :: 0 <= j < k < |prefabs| && prefabs[j].spawningTileLocation in m
               ==> prefabs[j].spawningTileLocation != prefabs[k].spawningTileLocation
    ensures LastPlacedOn(m, prefabs, m[prefabs[i].spawningTileLocation], |prefabs|) == Some(i)
  {
  }

  /** When two prefabs share a spawning location, the earlier character
      still names the tile as its own but the tile holds the later one. */
  lemma SharedSpawnLocation(m: TileMap, prefabs: seq<CharacterPrefab>, i: nat, j: nat)
    requires i < j < |prefabs| && prefabs[i].spawningTileLocation in m
    requires prefabs[i].spawningTileLocation == prefabs[j].spawningTileLocation
    ensures LastPlacedOn(m, prefabs, m[prefabs[i].spawningTileLocation], |prefabs|) != Some(i)
  {
  }

  /** A fresh character as Instantiate makes it from a prefab. */
  ghost predicate FromPrefab(c: CharacterData, p: CharacterPrefab) {
    c.spawningTileLocation == p.spawningTileLocation && c.isEnemy == p.isEnemy
    && c.attack == p.attack && c.defense == p.defense && c.range == p.range
    && c.attackRange == p.attackRange && c.maxHealth == p.maxHealth
  }

  class CharacterSpawnManager {
    const characterPrefabs: seq<CharacterPrefab>

    constructor (characterPrefabs: seq<CharacterPrefab>)
      ensures this.characterPrefabs == characterPrefabs
    {
      this.characterPrefabs := characterPrefabs;
    }

    /** Instantiates the prefabs in order; each character whose spawning
        location is a key of the map is stood on that tile, so a tile
        several characters spawn on ends up holding the last of them.
        Returns the characters made, which the game keeps only as scene
        objects. */
    method Start(m: TileMap) returns (spawned: seq<CharacterData>)
      modifies m.Values`characterOnTile, m.Values`isOccupied
      ensures |spawned| == |characterPrefabs|
      ensures forall i :: 0 <= i < |spawned| ==> fresh(spawned[i]) && FromPrefab(spawned[i], characterPrefabs[i])
      ensures forall i :: 0 <= i < |spawned| ==>
        spawned[i].activeTile == if characterPrefabs[i].spawningTileLocation in m
                                 then m[characterPrefabs[i].spawningTileLocation] else null
      ensures forall t :: t in m.Values ==>
        var last := LastPlacedOn(m, characterPrefabs, t, |characterPrefabs|);
        (last.Some? ==> t.characterOnTile == spawned[last.value] && t.isOccupied)
        && (last.None? ==> t.characterOnTile == old(t.characterOnTile) && t.isOccupied == old(t.isOccupied))
    {
      spawned := [];
      for i := 0 to |characterPrefabs|
        invariant |spawned| == i
        invariant forall j :: 0 <= j < i ==> fresh(spawned[j]) && FromPrefab(spawned[j], characterPrefabs[j])
        invariant forall j :: 0 <= j < i ==>
          spawned[j].activeTile == if characterPrefabs[j].spawningTileLocation in m
                                   then m[characterPrefabs[j].spawningTileLocation] else null
        invariant forall t :: t in m.Values ==>
          var last := LastPlacedOn(m, characterPrefabs, t, i);
          (last.Some? ==> t.characterOnTile == spawned[last.value] && t.isOccupied)
          && (last.None? ==> t.characterOnTile == old(t.characterOnTile) && t.isOccupied == old(t.isOccupied))
      {
        var p := characterPrefabs[i];
        var character := new CharacterData(p.spawningTileLocation, p.isEnemy, p.attack, p.defense,
                                           p.range, p.attackRange, p.maxHealth);
        var locationToSpawn := character.spawningTileLocation;
        if locationToSpawn in m {
          PositionCharacterOnTile(m[locationToSpawn], character);
        }
        spawned := spawned + [character];
      }
    }

    /** Makes the tile and the character point at each other and marks the
        tile occupied. */
    static method PositionCharacterOnTile(tile: OverlayTile, characterToMove: CharacterData)
      modifies characterToMove`activeTile, tile`characterOnTile, tile`isOccupied
      ensures characterToMove.activeTile == tile
      ensures tile.characterOnTile == characterToMove && tile.isOccupied
    {
      characterToMove.activeTile := tile;
      tile.characterOnTile := characterToMove;
      tile.isOccupied := true;
    }
  }
}
