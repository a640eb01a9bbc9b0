/** EnemyData: an enemy unit picks as its target the nearest player unit
    standing on the map. EnemyData extends CharacterData in the game; here
    the CharacterData part is the object `unit`. */
module Enemies {
  import opened Common
  import opened Board

  /** The squared Euclidean distance between two cells. Vector2Int.Distance
      is its square root, which orders cells the same way. */
  function SquaredDistance(a: Vector2Int, b: Vector2Int): (r: nat)
    ensures r == 0 <==> a == b
  {
    var dx, dy := a.0 - b.0, a.1 - b.1;
    SquareSign(dx);
    SquareSign(dy);
    dx * dx + dy * dy
  }

  /** A square is never negative, and is zero only for zero. */
  lemma SquareSign(x: int)
    ensures x * x >= 0 && (x * x == 0 <==> x == 0)
  {
    if x > 0 {
      assert x * x >= x;
    } else if x < 0 {
      assert x * x >= -x;
    }
  }

  /** The player units among the occupants, in order: every non-null,
      non-enemy one. */
  function PlayerCharacters(occupants: seq<CharacterData?>): (r: seq<CharacterData>)
    ensures |r| <= |occupants|
    ensures forall c :: c in r ==> c in occupants && !c.isEnemy
  {
    if occupants == [] then []
    else
      var c := occupants[|occupants| - 1];
      var rest := PlayerCharacters(occupants[..|occupants| - 1]);
      if c != null && !c.isEnemy then rest + [c] else rest
  }

  /** The list holds exactly the player units among the occupants, and is
      no longer. */
  lemma {:induction false} PlayerCharactersMembers(occupants: seq<CharacterData?>)
    ensures forall c :: c in PlayerCharacters(occupants) ==> c in occupants && !c.isEnemy
    ensures forall c :: c in occupants && c != null && !c.isEnemy ==> c in PlayerCharacters(occupants)
    ensures |PlayerCharacters(occupants)| <= |occupants|
  {
    if occupants != [] {
      var init := occupants[..|occupants| - 1];
      PlayerCharactersMembers(init);
      assert occupants == init + [occupants[|occupants| - 1]];
    }
  }

  /** Looking at one more occupant appends it when it is a player unit. */
  lemma PlayerCharactersPrefix(occupants: seq<CharacterData?>, i: nat)
    requires i < |occupants|
    ensures PlayerCharacters(occupants[..i + 1]) == PlayerCharacters(occupants[..i])
      + (var c := occupants[i]; if c != null && !c.isEnemy then [c] else [])
  {
    assert occupants[..i + 1][..i] == occupants[..i];
  }

  class EnemyData {
    /** The CharacterData part of this enemy. */
    const unit: CharacterData
    var characterList: seq<CharacterData>
    var target: CharacterData?

    constructor (unit: CharacterData)
      ensures this.unit == unit && characterList == [] && target == null
    {
      this.unit := unit;
      characterList, target := [], null;
    }

    /** Unity's Start: the list of candidate targets begins empty. */
    method Start()
      modifies this`characterList
      ensures characterList == []
    {
      characterList := [];
    }

    /** Appends every player unit standing on a map tile to characterList,
        in the dictionary's iteration order: occupants holds the
        characterOnTile of each tile of map.Values in that order. The list
        is never cleared, so earlier candidates stay. The target becomes
        the closest candidate. With no candidate the game throws after the
        appends: the result is false and the target is kept. A unit the
        game has destroyed compares equal to null, so occupants holds null
        for it. */
    method FindCharacterTarget(occupants: seq<CharacterData?>) returns (ok: bool)
      requires unit.activeTile != null
      requires forall c :: c in characterList ==> c.activeTile != null
      requires forall c :: c in PlayerCharacters(occupants) ==> c.activeTile != null
      requires forall c :: c in occupants && c != null ==> !c.destroyed
      modifies this`characterList, this`target
      ensures characterList == old(characterList) + PlayerCharacters(occupants)
      ensures ok <==> characterList != []
      ensures !ok ==> target == old(target)
      ensures forall c :: c in characterList ==> c.activeTile != null
      ensures forall c :: c in PlayerCharacters(occupants) ==> !c.destroyed
      ensures ok ==> exists i :: (0 <= i < |characterList| && target == characterList[i]
                                  && (forall j :: 0 <= j < |characterList| ==> Distance(target) <= Distance(characterList[j]))
                                  && (forall j :: 0 <= j < i ==> Distance(characterList[j]) > Distance(target)))
    {
      PlayerCharactersMembers(occupants);
      var i := 0;
      while i < |occupants|
        invariant 0 <= i <= |occupants|
        invariant characterList == old(characterList) + PlayerCharacters(occupants[..i])
        modifies this`characterList
      {
        var characterOnTile := occupants[i];
        PlayerCharactersPrefix(occupants, i);
        if characterOnTile != null && !characterOnTile.isEnemy {
          characterList := characterList + [characterOnTile];
        }
        i := i + 1;
      }
      assert occupants[..|occupants|] == occupants;
      if characterList == [] {
        return false;
      }
      target := ReturnClosestCharacter(characterList);
      ok := true;
    }

    /** How far a candidate stands from this enemy. */
    function Distance(c: CharacterData): (r: nat)
      requires unit.activeTile != null && c.activeTile != null
      reads unit`activeTile, c`activeTile
      ensures r == 0 <==> unit.activeTile.Grid2DLocation() == c.activeTile.Grid2DLocation()
    {
      SquaredDistance(unit.activeTile.Grid2DLocation(), c.activeTile.Grid2DLocation())
    }

    /** A candidate at the least distance, the earliest of those tied (the
        comparison is strict). The game indexes the list at 0 first, so it
        must not be empty. */
    method ReturnClosestCharacter(listOfCharacters: seq<CharacterData>) returns (closest: CharacterData)
      requires |listOfCharacters| > 0 && unit.activeTile != null
      requires forall c :: c in listOfCharacters ==> c.activeTile != null
      ensures exists i :: (0 <= i < |listOfCharacters| && closest == listOfCharacters[i]
                           && (forall j :: 0 <= j < |listOfCharacters| ==> Distance(closest) <= Distance(listOfCharacters[j]))
                           && (forall j :: 0 <= j < i ==> Distance(listOfCharacters[j]) > Distance(closest)))
    {
      var minDistance: Option<nat> := None;
      var minIndex := 0;
      for i := 0 to |listOfCharacters|
        invariant minIndex < |listOfCharacters|
        invariant i == 0 <==> minDistance.None?
        invariant i > 0 ==> minIndex < i && minDistance == Some(Distance(listOfCharacters[minIndex]))
        invariant forall j :: 0 <= j < i ==> Distance(listOfCharacters[minIndex]) <= Distance(listOfCharacters[j])
        invariant forall j :: 0 <= j < minIndex ==> Distance(listOfCharacters[j]) > Distance(listOfCharacters[minIndex])
      {
        var distance := Distance(listOfCharacters[i]);
        if minDistance.None? || distance < minDistance.value {
          minDistance := Some(distance);
          minIndex := i;
        }
      }
      closest := listOfCharacters[minIndex];
    }
  }
}
