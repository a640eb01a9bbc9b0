/** TurnManager: a counter of turns whose parity says whose turn it is.
    Odd turns belong to the player, even turns to the enemies. The two C#
    events are modelled as a log the manager appends to; the handlers
    subscribed to them are not run here. */
module Turns {

  /** OnEnemyTurnChanged and OnPlayerTurnChanged, with the turn they carry. */
  datatype TurnEvent = EnemyTurnChanged(turn: int) | PlayerTurnChanged(turn: int)

  /** The event StartTurn fires for a turn. C#'s % truncates while Dafny's
      does not, but both give 0 on exactly the even numbers. */
  function TurnEventFor(turn: int): (e: TurnEvent)
    ensures e.turn == turn
  {
    if turn % 2 == 0 then EnemyTurnChanged(turn) else PlayerTurnChanged(turn)
  }

  /** Reference definition: the enemies move on the turns that are twice
      some whole number. */
  lemma EnemyTurnsAreEven(turn: int)
    ensures TurnEventFor(turn).EnemyTurnChanged? <==> exists k :: turn == 2 * k
  {
    if TurnEventFor(turn).EnemyTurnChanged? {
      assert turn == 2 * (turn / 2);
    }
  }

  /** The turn after a player turn is an enemy turn and the other way round. */
  lemma TurnsAlternate(turn: int)
    ensures TurnEventFor(turn).EnemyTurnChanged? <==> TurnEventFor(turn + 1).PlayerTurnChanged?
  {
  }

  /** The events fired so far, ending with the current turn: each is the one
      its turn calls for, and each turn is one more than the last. */
  predicate TurnLog(log: seq<TurnEvent>, currentTurn: int) {
    |log| > 0 && log[|log| - 1].turn == currentTurn
    && (forall i :: 0 <= i < |log| ==> log[i] == TurnEventFor(log[i].turn))
    && (forall i :: 0 <= i < |log| - 1 ==> log[i + 1].turn == log[i].turn + 1)
  }

  /** The log after Start, on the initial turn 1: one player event. */
  lemma FirstTurnIsPlayer()
    ensures TurnLog([TurnEventFor(1)], 1)
    ensures TurnEventFor(1) == PlayerTurnChanged(1)
  {
  }

  /** Ending a turn extends a turn log. */
  lemma {:induction false} TurnLogExtends(log: seq<TurnEvent>, currentTurn: int)
    requires TurnLog(log, currentTurn)
    ensures TurnLog(log + [TurnEventFor(currentTurn + 1)], currentTurn + 1)
  {
    var next := log + [TurnEventFor(currentTurn + 1)];
    forall i | 0 <= i < |next| ensures next[i] == TurnEventFor(next[i].turn) {
      if i < |log| {
        assert next[i] == log[i];
      }
    }
  }

  /** In a turn log, turns strictly increase and the events alternate
      between enemy and player. */
  lemma {:induction false} TurnLogAlternates(log: seq<TurnEvent>, currentTurn: int)
    requires TurnLog(log, currentTurn)
    ensures forall i, j :: 0 <= i < j < |log| ==> log[i].turn < log[j].turn
    ensures forall i :: 0 <= i < |log| - 1 ==> (log[i].EnemyTurnChanged? <==> log[i + 1].PlayerTurnChanged?)
  {
    forall i, j | 0 <= i < j < |log| ensures log[i].turn < log[j].turn {
      TurnsIncrease(log, currentTurn, i, j);
    }
    forall i | 0 <= i < |log| - 1 ensures log[i].EnemyTurnChanged? <==> log[i + 1].PlayerTurnChanged? {
      TurnsAlternate(log[i].turn);
    }
  }

  /** The turn j of a turn log lies j - i turns after turn i. */
  lemma {:induction false} TurnsIncrease(log: seq<TurnEvent>, currentTurn: int, i: nat, j: nat)
    requires TurnLog(log, currentTurn) && i <= j < |log|
    ensures log[j].turn == log[i].turn + (j - i)
    decreases j - i
  {
    if i < j {
      TurnsIncrease(log, currentTurn, i + 1, j);
    }
  }

  class TurnManager {
    var currentTurn: int
    /** The turn events fired, oldest first. */
    var events: seq<TurnEvent>

    /** The game begins on turn 1, before any event. */
    constructor ()
      ensures currentTurn == 1 && events == []
    {
      currentTurn := 1;
      events := [];
    }

    /** The log and the counter agree. */
    predicate Valid()
      reads this
    {
      TurnLog(events, currentTurn)
    }

    /** Unity's Start: starts the current turn. */
    method Start()
      modifies this`events
      ensures events == old(events) + [TurnEventFor(currentTurn)]
      ensures old(events) == [] && currentTurn == 1 ==> Valid() && events == [PlayerTurnChanged(1)]
    {
      StartTurn(currentTurn);
    }

    /** Fires exactly one event: the enemy event on an even turn, the
        player event on an odd one. */
    method StartTurn(turn: int)
      modifies this`events
      ensures events == old(events) + [TurnEventFor(turn)]
    {
      if turn % 2 == 0 {
        events := events + [EnemyTurnChanged(turn)];
      } else {
        events := events + [PlayerTurnChanged(turn)];
      }
    }

    /** Moves on to the next turn and starts it. */
    method EndTurn()
      modifies this`currentTurn, this`events
      ensures currentTurn == old(currentTurn) + 1
      ensures events == old(events) + [TurnEventFor(currentTurn)]
      ensures old(Valid()) ==> Valid()
    {
      currentTurn := currentTurn + 1;
      StartTurn(currentTurn);
      if old(Valid()) {
        TurnLogExtends(old(events), old(currentTurn));
      }
    }
  }
}
