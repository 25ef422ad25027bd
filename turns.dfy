/**
 * TurnManager: the registered factions, the index of the faction whose turn
 * it is, the turn-change listeners and the "an action is in flight" gate.
 * F stands for the faction type; listeners are identified by number and
 * each notification they receive is appended to a log.
 */
module Turns {
  import opened Options

  /** One onTurnChanged call: which listener was told, and the faction it was given (None for undefined). */
  datatype Notification<F> = Notification(listener: nat, faction: Option<F>)

  /** The index endTurn leaves: the increment is commented out, so the index only falls back to 0 once past the count. */
  function NextFactionId(id: int, count: nat): (next: int)
  {
    if id > count then 0 else id
  }

  /** The index after any number of endTurn calls. */
  function AfterTurns(id: int, count: nat, turns: nat): int
  {
    if turns == 0 then id else AfterTurns(NextFactionId(id, count), count, turns - 1)
  }

  /** From any index within [0, count], ending turns never hands the turn to another faction. */
  lemma {:induction false} TurnNeverAdvances(id: int, count: nat, turns: nat)
    requires 0 <= id <= count
    ensures AfterTurns(id, count, turns) == id
  {
    if turns > 0 {
      assert NextFactionId(id, count) == id;
      TurnNeverAdvances(id, count, turns - 1);
    }
  }

  /** An index beyond the count is reset by one endTurn and stays 0 afterwards. */
  lemma PastEndResets(id: int, count: nat, turns: nat)
    requires id > count && turns >= 1
    ensures AfterTurns(id, count, turns) == 0
  {
    TurnNeverAdvances(0, count, turns - 1);
  }

  /** startAction's effect: the gate is raised and nothing else changes. */
  twostate predicate StartedAction<F>(tm: TurnManager<F>)
    reads tm
  {
    && tm.isPerformingAction
    && tm.factions == old(tm.factions) && tm.currentFactionId == old(tm.currentFactionId)
    && tm.listeners == old(tm.listeners) && tm.notifications == old(tm.notifications)
  }

  /**
   * endAction's effect: the gate is lowered, the index is kept (or reset past
   * the end) and every listener, in order, is told the faction at that index.
   */
  twostate predicate EndedAction<F>(tm: TurnManager<F>)
    reads tm
  {
    && !tm.isPerformingAction
    && tm.currentFactionId == NextFactionId(old(tm.currentFactionId), |tm.factions|)
    && tm.factions == old(tm.factions) && tm.listeners == old(tm.listeners)
    && |tm.notifications| == |old(tm.notifications)| + |tm.listeners|
    && tm.notifications[..|old(tm.notifications)|] == old(tm.notifications)
    && forall i :: 0 <= i < |tm.listeners| ==>
         tm.notifications[|old(tm.notifications)| + i] == Notification(tm.listeners[i], tm.CurrentFaction())
  }

  class TurnManager<F> {
    var factions: seq<F>
    var currentFactionId: int
    /** The onTurnChanged listeners, in registration order. */
    var listeners: seq<nat>
    var isPerformingAction: bool
    /** Every onTurnChanged call made so far, in order. */
    var notifications: seq<Notification<F>>

    constructor ()
      ensures factions == [] && currentFactionId == 0 && listeners == []
      ensures !isPerformingAction && notifications == []
    {
      factions := [];
      currentFactionId := 0;
      listeners := [];
      isPerformingAction := false;
      notifications := [];
    }

    /** The faction at the current index; None where the source reads past the end of the list. */
    function CurrentFaction(): (f: Option<F>)
      reads this
      ensures f.Some? <==> 0 <= currentFactionId < |factions|
      ensures f.Some? ==> f.value == factions[currentFactionId]
    {
      if 0 <= currentFactionId < |factions| then Some(factions[currentFactionId]) else None
    }

    method AddFaction(faction: F)
      modifies this
      ensures factions == old(factions) + [faction]
      ensures currentFactionId == old(currentFactionId) && listeners == old(listeners)
      ensures isPerformingAction == old(isPerformingAction) && notifications == old(notifications)
    {
      factions := factions + [faction];
    }

    /** endTurn: keep (or reset) the index, then tell every listener, in order, whose turn it is. */
    method EndTurn()
      modifies this
      ensures currentFactionId == NextFactionId(old(currentFactionId), |factions|)
      ensures factions == old(factions) && listeners == old(listeners)
      ensures isPerformingAction == old(isPerformingAction)
      ensures |notifications| == |old(notifications)| + |listeners|
      ensures notifications[..|old(notifications)|] == old(notifications)
      ensures forall i :: 0 <= i < |listeners| ==>
                notifications[|old(notifications)| + i] == Notification(listeners[i], CurrentFaction())
    {
      if currentFactionId > |factions| {
        currentFactionId := 0;
      }
      var before := notifications;
      for i := 0 to |listeners|
        invariant factions == old(factions) && listeners == old(listeners)
        invariant currentFactionId == NextFactionId(old(currentFactionId), |factions|)
        invariant isPerformingAction == old(isPerformingAction)
        invariant |notifications| == |before| + i
        invariant notifications[..|before|] == before
        invariant forall j :: 0 <= j < i ==> notifications[|before| + j] == Notification(listeners[j], CurrentFaction())
      {
        notifications := notifications + [Notification(listeners[i], CurrentFaction())];
      }
    }

    method AddListener(listener: nat)
      modifies this
      ensures listeners == old(listeners) + [listener]
      ensures factions == old(factions) && currentFactionId == old(currentFactionId)
      ensures isPerformingAction == old(isPerformingAction) && notifications == old(notifications)
    {
      listeners := listeners + [listener];
    }

    /** startAction: raise the gate; a second call is accepted and changes nothing more. */
    method StartAction()
      modifies this
      ensures StartedAction(this)
    {
      isPerformingAction := true;
    }

    /** endAction: lower the gate, then end the turn. */
    method EndAction()
      modifies this
      ensures EndedAction(this)
    {
      isPerformingAction := false;
      EndTurn();
    }

    /** canPerfromAction: no action is in flight. */
    predicate CanPerformAction()
      reads this
    {
      !isPerformingAction
    }
  }
}
