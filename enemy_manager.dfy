/** EnemyManager: walks the enemies one at a time during an enemy turn and
    ends the turn after the last one; removes dead enemies and declares the
    level completed when none is left. What an enemy does when it acts
    (EnemyData.PerformAction) is not part of this model: its acting is
    recorded in a log, as is the level-completed canvas. */
module EnemyManagement {
  import opened Common
  import opened Turns
  import opened Enemies

  /** What the manager makes happen, in order. */
  datatype EnemyEvent = EnemyActed(enemy: EnemyData) | LevelCompleted

  /** The events RemoveEnemyFromList fires when it removes enemy from the
      list enemies: the level is completed exactly when the list was empty
      or held that enemy alone, since List.Remove takes out one copy. */
  function RemovalEvents(enemies: seq<EnemyData>, enemy: EnemyData): (r: seq<EnemyEvent>)
    ensures r == [LevelCompleted] <==> enemies == [] || enemies == [enemy]
    ensures r == [] <==> !(enemies == [] || enemies == [enemy])
  {
    RemoveFirstMultiset(enemies, enemy);
    if |RemoveFirst(enemies, enemy)| == 0 then [LevelCompleted] else []
  }

  class EnemyManager {
    const turnManager: TurnManager
    var enemies: seq<EnemyData>
    var currentIndex: int
    /** The enemy actions and level completions so far, oldest first. */
    var log: seq<EnemyEvent>

    /** The enemies found under the enemy holder, before any turn. */
    constructor (turnManager: TurnManager, enemies: seq<EnemyData>)
      ensures this.turnManager == turnManager && this.enemies == enemies
      ensures currentIndex == 0 && log == []
    {
      this.turnManager := turnManager;
      this.enemies := enemies;
      currentIndex := 0;
      log := [];
    }

    /** Handler of the enemy-turn event: the turn number is ignored. */
    method StartEnemyTurnActions(turn: int)
      requires currentIndex >= 0
      modifies this`currentIndex, this`log, turnManager`currentTurn, turnManager`events
      ensures ActionTaken(old(currentIndex), old(log), old(turnManager.currentTurn), old(turnManager.events))
    {
      PerformNextAction();
    }

    /** The state after PerformNextAction from the given one: the enemy at
        the index acts and the index stays; one past the last enemy, the
        index goes back to 0 and the turn ends once; further on, nothing
        happens. */
    ghost predicate ActionTaken(index: int, events: seq<EnemyEvent>, turn: int, turnEvents: seq<TurnEvent>)
      requires index >= 0
      reads this, turnManager
    {
      if index < |enemies| then
        currentIndex == index && log == events + [EnemyActed(enemies[index])]
        && turnManager.currentTurn == turn && turnManager.events == turnEvents
      else if index == |enemies| then
        currentIndex == 0 && log == events
        && turnManager.currentTurn == turn + 1 && turnManager.events == turnEvents + [TurnEventFor(turn + 1)]
      else
        currentIndex == index && log == events
        && turnManager.currentTurn == turn && turnManager.events == turnEvents
    }

    /** Lets the current enemy act, or ends the enemy turn once every enemy
        has acted. The list indexer throws on a negative index; the index
        starts at 0 and only grows or is reset. */
    method PerformNextAction()
      requires currentIndex >= 0
      modifies this`currentIndex, this`log, turnManager`currentTurn, turnManager`events
      ensures ActionTaken(old(currentIndex), old(log), old(turnManager.currentTurn), old(turnManager.events))
    {
      if currentIndex < |enemies| {
        var currentEnemy := enemies[currentIndex];
        log := log + [EnemyActed(currentEnemy)];
      } else if currentIndex == |enemies| {
        currentIndex := 0;
        turnManager.EndTurn();
      }
    }

    /** The current enemy is done: the next one is up. */
    method IncrementEnemyIndex()
      modifies this`currentIndex
      ensures currentIndex == old(currentIndex) + 1
    {
      currentIndex := currentIndex + 1;
    }

    /** Handler of an enemy's death: removes its first occurrence and, when
        no enemy is left, completes the level. */
    method RemoveEnemyFromList(enemy: EnemyData)
      modifies this`enemies, this`log
      ensures enemies == RemoveFirst(old(enemies), enemy)
      ensures log == old(log) + RemovalEvents(old(enemies), enemy)
    {
      enemies := RemoveFirst(enemies, enemy);
      if |enemies| == 0 {
        log := log + [LevelCompleted];
      }
    }
  }
}
