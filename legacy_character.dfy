/** The older revision of CharacterData: a unit's stats and health, without
    spawning, turn flags or death handling on its tile. */
module LegacyCharacter {
  import opened Board

  class CharacterData {
    var activeTile: OverlayTile?
    /** Stats configured on the prefab. */
    const isEnemy: bool
    const attack: int
    const defense: int
    const range: int
    const maxHealth: int

    var currentHealth: int

    /** A freshly instantiated prefab, not yet on any tile. */
    constructor (isEnemy: bool, attack: int, defense: int, range: int, maxHealth: int)
      ensures this.isEnemy == isEnemy && this.attack == attack && this.defense == defense
      ensures this.range == range && this.maxHealth == maxHealth
      ensures activeTile == null && currentHealth == 0
    {
      this.isEnemy, this.attack, this.defense := isEnemy, attack, defense;
      this.range, this.maxHealth := range, maxHealth;
      activeTile, currentHealth := null, 0;
    }

    /** Unity's Start: a unit enters play at full health. */
    method Start()
      modifies this`currentHealth
      ensures currentHealth == maxHealth
    {
      currentHealth := maxHealth;
    }

    /** Subtracts the damage, clamping at 0; nothing but the health changes,
        not even the tile's occupancy. */
    method TakeDamage(damage: int)
      modifies this`currentHealth
      ensures currentHealth == AfterDamage(old(currentHealth), damage)
    {
      currentHealth := currentHealth - damage;
      if currentHealth <= 0 {
        currentHealth := 0;
      }
    }
  }
}
