/** The objects the game's grid logic mutates in place: OverlayTile, one
    cell of the play grid, and CharacterData, one unit standing on it. The
    two refer to each other, so they share this module. */
module Board {
  import opened Common
  import AT = ArrowTranslator

  /** A sprite asset, known only by identity. */
  type Sprite = int

  class OverlayTile {
    /** A* scratch values: distance from the start and to the end. */
    var G: int
    var H: int

    var isBlocked: bool
    var isOccupied: bool
    var characterOnTile: CharacterData?

    var previousTile: OverlayTile?
    /** Cell of the tile map (x, y, layer z); fixed once the tile is made. */
    const gridLocation: Vector3Int

    /** The prefab's arrow sprites, indexed by ArrowDirection value. */
    const arrows: seq<Sprite>
    /** The arrow child renderer: whether it is visible and the sprite last
        assigned to it. */
    var arrowVisible: bool
    var arrowSprite: Option<Sprite>

    /** F = G + H, the A* cost. */
    function F(): int
      reads this
    {
      G + H
    }

    /** The location with the layer dropped. */
    function Grid2DLocation(): (r: Vector2Int)
      ensures (r.0, r.1, gridLocation.2) == gridLocation
    {
      (gridLocation.0, gridLocation.1)
    }

    /** A freshly instantiated tile placed at a cell of the tile map. */
    constructor (location: Vector3Int, arrows: seq<Sprite>)
      ensures gridLocation == location && this.arrows == arrows
      ensures G == 0 && H == 0 && previousTile == null
      ensures !isBlocked && !isOccupied && characterOnTile == null
      ensures !arrowVisible && arrowSprite == Option.None
    {
      gridLocation := location;
      this.arrows := arrows;
      G, H := 0, 0;
      isBlocked, isOccupied := false, false;
      characterOnTile, previousTile := null, null;
      arrowVisible, arrowSprite := false, Option.None;
    }

    /** Hides the tile, which also hides its arrow. */
    method HideTile()
      modifies this`arrowVisible, this`arrowSprite
      ensures !arrowVisible && arrowSprite == old(arrowSprite)
    {
      SetArrowSprite(AT.ArrowDirection.None);
    }

    /** None hides the arrow; any other direction shows the sprite at its
        enum value, an index the sprite list must hold. */
    method SetArrowSprite(d: AT.ArrowDirection)
      requires d != AT.ArrowDirection.None ==> AT.Ordinal(d) < |arrows|
      modifies this`arrowVisible, this`arrowSprite
      ensures d == AT.ArrowDirection.None ==> !arrowVisible && arrowSprite == old(arrowSprite)
      ensures d != AT.ArrowDirection.None ==> arrowVisible && arrowSprite == Some(arrows[AT.Ordinal(d)])
    {
      if d == AT.ArrowDirection.None {
        arrowVisible := false;
      } else {
        arrowVisible := true;
        arrowSprite := Some(arrows[AT.Ordinal(d)]);
      }
    }
  }

  /** The grid's dictionary from (x, y) to tile. */
  type TileMap = map<Vector2Int, OverlayTile>

  /** Every tile is stored under its own 2-D location, as MapManager builds
      the dictionary. */
  predicate KeysMatch(m: TileMap) {
    forall k :: k in m ==> m[k].Grid2DLocation() == k
  }

  /** Hence no tile is stored under two keys. */
  lemma {:induction false} KeysMatchInjective(m: TileMap, k1: Vector2Int, k2: Vector2Int)
    requires KeysMatch(m) && k1 in m && k2 in m
    requires m[k1] == m[k2]
    ensures k1 == k2
  {
    assert k1 == m[k1].Grid2DLocation();
  }

  /** A tile of the dictionary is found again under its own location. */
  lemma ValueKey(m: TileMap, t: OverlayTile)
    requires KeysMatch(m) && t in m.Values
    ensures t.Grid2DLocation() in m && m[t.Grid2DLocation()] == t
  {
    var k :| k in m && m[k] == t;
  }

  /** Health after a hit as TakeDamage computes it: the damage is
      subtracted and a result at or below zero is clamped to 0. */
  function AfterDamage(health: int, damage: int): (r: int)
    ensures r >= 0
    ensures r == 0 <==> health - damage <= 0
    ensures r != 0 ==> r == health - damage
  {
    if health - damage <= 0 then 0 else health - damage
  }

  /** More damage never leaves more health. */
  lemma DamageMonotone(health: int, d1: int, d2: int)
    requires d1 <= d2
    ensures AfterDamage(health, d2) <= AfterDamage(health, d1)
  {
  }

  /** Two non-negative hits take as much health as one hit of their sum;
      with a negative hit (a heal) after a fatal one they do not. */
  lemma TwoHitsAsOne(health: int, d1: int, d2: int)
    requires d1 >= 0 && d2 >= 0
    ensures AfterDamage(AfterDamage(health, d1), d2) == AfterDamage(health, d1 + d2)
  {
  }

  class CharacterData {
    var activeTile: OverlayTile?
    /** Stats configured on the prefab. */
    const spawningTileLocation: Vector2Int
    const isEnemy: bool
    const attack: int
    const defense: int
    const range: int
    const attackRange: int
    const maxHealth: int

    var currentHealth: int
    var movedThisTurn: bool
    var attackedThisTurn: bool
    /** Whether Destroy has been called on the unit's game object. Unity's
        == then reports the unit as null. */
    var destroyed: bool

    /** A freshly instantiated prefab, not yet on any tile. */
    constructor (spawningTileLocation: Vector2Int, isEnemy: bool, attack: int, defense: int,
                 range: int, attackRange: int, maxHealth: int)
      ensures this.spawningTileLocation == spawningTileLocation && this.isEnemy == isEnemy
      ensures this.attack == attack && this.defense == defense && this.range == range
      ensures this.attackRange == attackRange && this.maxHealth == maxHealth
      ensures activeTile == null && currentHealth == 0 && !movedThisTurn && !attackedThisTurn
      ensures !destroyed
    {
      this.spawningTileLocation, this.isEnemy := spawningTileLocation, isEnemy;
      this.attack, this.defense, this.range := attack, defense, range;
      this.attackRange, this.maxHealth := attackRange, maxHealth;
      activeTile, currentHealth := null, 0;
      movedThisTurn, attackedThisTurn := false, false;
      destroyed := false;
    }

    /** Unity's Start: a unit enters play at full health. */
    method Start()
      modifies this`currentHealth
      ensures currentHealth == maxHealth
    {
      currentHealth := maxHealth;
    }

    /** Subtracts the damage; at zero or below, health is clamped to 0 and
        the unit's tile is marked unoccupied (a dying unit must stand on a
        tile: the game dereferences it) and the unit is destroyed. The tile
        keeps characterOnTile. */
    method TakeDamage(damage: int)
      requires currentHealth - damage <= 0 ==> activeTile != null
      modifies this`currentHealth, this`destroyed, (if activeTile == null then {} else {activeTile})`isOccupied
      ensures currentHealth == AfterDamage(old(currentHealth), damage)
      ensures old(currentHealth) - damage > 0 ==> activeTile == null || activeTile.isOccupied == old(activeTile.isOccupied)
      ensures old(currentHealth) - damage <= 0 ==> currentHealth == 0 && !activeTile.isOccupied
      ensures destroyed <==> old(destroyed) || old(currentHealth) - damage <= 0
    {
      currentHealth := currentHealth - damage;
      if currentHealth <= 0 {
        currentHealth := 0;
        activeTile.isOccupied := false;
        destroyed := true;
      }
    }

    /** Handler of the player-turn event: every unit may move and attack
        again, enemy or not. */
    method OnPlayerTurnChanged(currentTurn: int)
      modifies this`movedThisTurn, this`attackedThisTurn
      ensures !movedThisTurn && !attackedThisTurn
    {
      movedThisTurn := false;
      attackedThisTurn := false;
    }
  }
}
