/**
 * PlayerController: the player's side of a turn as a small state machine of
 * behaviours. While selecting, a click on one of the player's units selects
 * it and shows the action buttons; the move and attack buttons paint the
 * unit's range and wait for a click on a painted tile, which sends the move
 * or attack message, while any other click cancels back to selecting. The
 * rest button sends a rest. Outside the player's turn clicks are ignored.
 * The action buttons' entity being in the engine is the flag actionsShown.
 */
module Player {
  import opened Options
  import opened Tiles
  import opened Turns
  import opened Attacks
  import opened Units
  import opened GridManagement
  import opened Messages

  /** Which behaviour handles tile clicks: NoneBehavior, SelectingUnit, MoveUnitBehavior or AttackUnitBehavior. */
  datatype Behavior = NoBehavior | SelectingUnit | MoveUnit | AttackUnit

  class PlayerController {
    const playerFaction: Faction
    var currentBehavior: Behavior
    var selectedUnit: Option<Unit>
    var actionsShown: bool
    /** MoveUnitBehavior's _tiles and _selectedUnit. */
    var moveTiles: seq<TileId>
    var moveSelected: Option<Unit>
    /** AttackUnitBehavior's _tiles and _selectedUnit. */
    var attackTiles: seq<TileId>
    var attackSelected: Option<Unit>

    /** A moving or attacking behaviour was started for a unit. */
    ghost predicate Consistent()
      reads this
    {
      && (currentBehavior == MoveUnit ==> moveSelected.Some?)
      && (currentBehavior == AttackUnit ==> attackSelected.Some?)
    }

    constructor (playerFaction: Faction)
      ensures this.playerFaction == playerFaction && Consistent()
      ensures currentBehavior == SelectingUnit && selectedUnit == None && !actionsShown
      ensures moveTiles == [] && moveSelected == None && attackTiles == [] && attackSelected == None
    {
      this.playerFaction := playerFaction;
      currentBehavior := SelectingUnit;
      selectedUnit := None;
      actionsShown := false;
      moveTiles, moveSelected := [], None;
      attackTiles, attackSelected := [], None;
    }

    /** onTurnChanged: the player's own turn selects, any other turn ignores clicks. */
    method OnTurnChanged(faction: Option<Faction>)
      requires Consistent()
      modifies this
      ensures Consistent()
      ensures currentBehavior == (if faction == Some(playerFaction) then SelectingUnit else NoBehavior)
      ensures selectedUnit == old(selectedUnit) && actionsShown == old(actionsShown)
      ensures moveTiles == old(moveTiles) && moveSelected == old(moveSelected)
      ensures attackTiles == old(attackTiles) && attackSelected == old(attackSelected)
    {
      if faction == Some(playerFaction) {
        currentBehavior := SelectingUnit;
      } else {
        currentBehavior := NoBehavior;
      }
    }

    /** onUnitSelected: remember the unit; the buttons are shown for a unit and hidden for none. */
    method OnUnitSelected(unit: Option<Unit>)
      modifies this
      ensures selectedUnit == unit && actionsShown == unit.Some?
      ensures currentBehavior == old(currentBehavior)
      ensures moveTiles == old(moveTiles) && moveSelected == old(moveSelected)
      ensures attackTiles == old(attackTiles) && attackSelected == old(attackSelected)
    {
      selectedUnit := unit;
      actionsShown := unit.Some?;
    }

    /**
     * SelectingUnit.onTileClicked: the clicked tile's unit is selected exactly
     * when no action is in flight and it belongs to the player's faction;
     * otherwise the selection is cleared.
     */
    method SelectingClick(gm: GridManager, turns: TurnManager<Faction>, tile: TileId)
      requires gm.Valid() && tile < gm.tiles.Count()
      requires turns.CanPerformAction() && gm.tiles.objects[tile].Some? ==> gm.tiles.objects[tile].value.factionData.Some?
      modifies this
      ensures selectedUnit.Some? <==>
                && turns.CanPerformAction() && gm.tiles.objects[tile].Some?
                && gm.tiles.objects[tile].value.factionData.value.faction == playerFaction
      ensures selectedUnit.Some? ==> selectedUnit == gm.tiles.objects[tile]
      ensures actionsShown == selectedUnit.Some?
      ensures currentBehavior == old(currentBehavior)
      ensures moveTiles == old(moveTiles) && moveSelected == old(moveSelected)
      ensures attackTiles == old(attackTiles) && attackSelected == old(attackSelected)
    {
      var occupant := gm.tiles.objects[tile];
      if turns.CanPerformAction() && occupant.Some? {
        if occupant.value.factionData.value.faction == playerFaction {
          OnUnitSelected(occupant);
          return;
        }
      }
      OnUnitSelected(None);
    }

    /** onMoveUnit: back to selecting and send the move from the unit's tile to tile. */
    method OnMoveUnit(unit: Unit, tile: TileId, msgs: MessageManager)
      modifies this, msgs
      ensures currentBehavior == SelectingUnit
      ensures msgs.sent == old(msgs.sent) + [MoveUnitMessage(unit.tile, tile)]
      ensures selectedUnit == old(selectedUnit) && actionsShown == old(actionsShown)
      ensures moveTiles == old(moveTiles) && moveSelected == old(moveSelected)
      ensures attackTiles == old(attackTiles) && attackSelected == old(attackSelected)
    {
      currentBehavior := SelectingUnit;
      msgs.Send(MoveUnitMessage(unit.tile, tile));
    }

    /** onAttack: clicks are ignored from now on and the attack on atkTile's unit is sent. */
    method OnAttack(srcUnit: Unit, atkTile: TileId, gm: GridManager, mgr: AttackManager, msgs: MessageManager)
      requires atkTile < |gm.tiles.objects| && gm.tiles.objects[atkTile].Some? && mgr.damageBonus.Some?
      modifies this, msgs
      ensures currentBehavior == NoBehavior
      ensures msgs.sent == old(msgs.sent) + [AttackMessage(srcUnit, AttackFor(mgr, srcUnit, gm.tiles.objects[atkTile].value))]
      ensures selectedUnit == old(selectedUnit) && actionsShown == old(actionsShown)
      ensures moveTiles == old(moveTiles) && moveSelected == old(moveSelected)
      ensures attackTiles == old(attackTiles) && attackSelected == old(attackSelected)
    {
      currentBehavior := NoBehavior;
      msgs.Send(AttackMessage(srcUnit, AttackFor(mgr, srcUnit, gm.tiles.objects[atkTile].value)));
    }

    /** onCancelAction: show the buttons again for a selected unit and go back to selecting. */
    method OnCancelAction()
      modifies this
      ensures currentBehavior == SelectingUnit
      ensures actionsShown == (old(actionsShown) || selectedUnit.Some?)
      ensures selectedUnit == old(selectedUnit)
      ensures moveTiles == old(moveTiles) && moveSelected == old(moveSelected)
      ensures attackTiles == old(attackTiles) && attackSelected == old(attackSelected)
    {
      if selectedUnit.Some? {
        actionsShown := true;
      }
      currentBehavior := SelectingUnit;
    }

    /**
     * MoveUnitBehavior.onTileClicked: a click on a painted tile while no
     * action is in flight sends the move there; any other click cancels.
     */
    method MoveClick(tile: TileId, turns: TurnManager<Faction>, msgs: MessageManager)
      requires moveSelected.Some?
      modifies this, msgs
      ensures selectedUnit == old(selectedUnit)
      ensures moveTiles == old(moveTiles) && moveSelected == old(moveSelected)
      ensures attackTiles == old(attackTiles) && attackSelected == old(attackSelected)
      ensures currentBehavior == SelectingUnit && Consistent()
      ensures turns.CanPerformAction() && tile in moveTiles ==>
                msgs.sent == old(msgs.sent) + [MoveUnitMessage(moveSelected.value.tile, tile)]
      ensures !(turns.CanPerformAction() && tile in moveTiles) ==>
                msgs.sent == old(msgs.sent) && actionsShown == (old(actionsShown) || selectedUnit.Some?)
    {
      if turns.CanPerformAction() && IndexOf(moveTiles, tile) != -1 {
        OnMoveUnit(moveSelected.value, tile, msgs);
      } else {
        OnCancelAction();
      }
    }

    /**
     * AttackUnitBehavior.onTileClicked: a click on a painted enemy tile while
     * no action is in flight sends the attack on its unit; any other click
     * cancels.
     */
    method AttackClick(tile: TileId, gm: GridManager, turns: TurnManager<Faction>, mgr: AttackManager,
                       msgs: MessageManager)
      requires attackSelected.Some? && mgr.damageBonus.Some? && tile < |gm.tiles.objects|
      requires turns.CanPerformAction() && tile in attackTiles ==> gm.tiles.objects[tile].Some?
      modifies this, msgs
      ensures selectedUnit == old(selectedUnit)
      ensures moveTiles == old(moveTiles) && moveSelected == old(moveSelected)
      ensures attackTiles == old(attackTiles) && attackSelected == old(attackSelected)
      ensures Consistent()
      ensures turns.CanPerformAction() && tile in attackTiles ==>
                && currentBehavior == NoBehavior
                && msgs.sent == old(msgs.sent)
                     + [AttackMessage(attackSelected.value, AttackFor(mgr, attackSelected.value, gm.tiles.objects[tile].value))]
      ensures !(turns.CanPerformAction() && tile in attackTiles) ==>
                && currentBehavior == SelectingUnit && msgs.sent == old(msgs.sent)
                && actionsShown == (old(actionsShown) || selectedUnit.Some?)
    {
      if turns.CanPerformAction() && IndexOf(attackTiles, tile) != -1 {
        OnAttack(attackSelected.value, tile, gm, mgr, msgs);
      } else {
        OnCancelAction();
      }
    }

    /** onTileClicked: the click goes to the current behaviour; NoneBehavior ignores it. */
    method OnTileClicked(tile: TileId, gm: GridManager, turns: TurnManager<Faction>, mgr: AttackManager,
                         msgs: MessageManager)
      requires Consistent() && gm.Valid() && tile < gm.tiles.Count() && mgr.damageBonus.Some?
      requires currentBehavior == SelectingUnit && turns.CanPerformAction() && gm.tiles.objects[tile].Some? ==>
                 gm.tiles.objects[tile].value.factionData.Some?
      requires currentBehavior == AttackUnit && turns.CanPerformAction() && tile in attackTiles ==>
                 gm.tiles.objects[tile].Some?
      modifies this, msgs
      ensures Consistent()
      ensures old(currentBehavior) == NoBehavior ==>
                && currentBehavior == NoBehavior && selectedUnit == old(selectedUnit) && actionsShown == old(actionsShown)
                && moveTiles == old(moveTiles) && moveSelected == old(moveSelected)
                && attackTiles == old(attackTiles) && attackSelected == old(attackSelected)
                && msgs.sent == old(msgs.sent)
      ensures old(currentBehavior) == SelectingUnit ==>
                && currentBehavior == SelectingUnit && msgs.sent == old(msgs.sent)
                && (selectedUnit.Some? <==>
                      && turns.CanPerformAction() && gm.tiles.objects[tile].Some?
                      && gm.tiles.objects[tile].value.factionData.value.faction == playerFaction)
                && (selectedUnit.Some? ==> selectedUnit == gm.tiles.objects[tile])
                && actionsShown == selectedUnit.Some?
                && moveTiles == old(moveTiles) && moveSelected == old(moveSelected)
                && attackTiles == old(attackTiles) && attackSelected == old(attackSelected)
      ensures old(currentBehavior) == MoveUnit ==>
                && currentBehavior == SelectingUnit && selectedUnit == old(selectedUnit)
                && moveTiles == old(moveTiles) && moveSelected == old(moveSelected)
                && attackTiles == old(attackTiles) && attackSelected == old(attackSelected)
                && (turns.CanPerformAction() && tile in moveTiles ==>
                      msgs.sent == old(msgs.sent) + [MoveUnitMessage(moveSelected.value.tile, tile)])
                && (!(turns.CanPerformAction() && tile in moveTiles) ==>
                      msgs.sent == old(msgs.sent) && actionsShown == (old(actionsShown) || selectedUnit.Some?))
      ensures old(currentBehavior) == AttackUnit ==>
                && selectedUnit == old(selectedUnit)
                && moveTiles == old(moveTiles) && moveSelected == old(moveSelected)
                && attackTiles == old(attackTiles) && attackSelected == old(attackSelected)
                && (turns.CanPerformAction() && tile in attackTiles ==>
                      && currentBehavior == NoBehavior
                      && msgs.sent == old(msgs.sent)
                           + [AttackMessage(attackSelected.value, AttackFor(mgr, attackSelected.value, gm.tiles.objects[tile].value))])
                && (!(turns.CanPerformAction() && tile in attackTiles) ==>
                      && currentBehavior == SelectingUnit && msgs.sent == old(msgs.sent)
                      && actionsShown == (old(actionsShown) || selectedUnit.Some?))
      ensures |msgs.sent| > |old(msgs.sent)| ==> turns.CanPerformAction()
      ensures msgs.sent == old(msgs.sent) || |msgs.sent| == |old(msgs.sent)| + 1
    {
      match currentBehavior
      case NoBehavior =>
      case SelectingUnit => SelectingClick(gm, turns, tile);
      case MoveUnit => MoveClick(tile, turns, msgs);
      case AttackUnit => AttackClick(tile, gm, turns, mgr, msgs);
    }

    /**
     * The move button: hide the buttons, paint the selected unit's walkable
     * range (which MoveUnitBehavior keeps) and wait for a click on it.
     */
    method ChooseMove(gm: GridManager)
      requires gm.Valid() && selectedUnit.Some? && selectedUnit.value.tile.Some?
      requires selectedUnit.value.tile.value < gm.tiles.Count()
      modifies this, gm, gm.tiles
      ensures gm.Valid() && RangeFrame(gm.tiles, old(selectedUnit).value.MoveRange())
      ensures currentBehavior == MoveUnit && Consistent() && !actionsShown
      ensures moveSelected == selectedUnit == old(selectedUnit) && gm.paintedTiles == moveTiles
      ensures RangeResult(gm.tiles.objects, gm.tiles.neighbourList, selectedUnit.value.tile.value, moveTiles,
                          true, selectedUnit.value.MoveRange())
      ensures InRange(gm.tiles.objects, gm.tiles.neighbourList, selectedUnit.value.tile.value,
                      selectedUnit.value.MoveRange(), true, moveTiles)
      ensures attackTiles == old(attackTiles) && attackSelected == old(attackSelected)
    {
      actionsShown := false;
      var unit := selectedUnit.value;
      moveTiles := gm.GetAndPaintTilesForMove(unit.tile.value, unit.MoveRange());
      moveSelected := selectedUnit;
      currentBehavior := MoveUnit;
    }

    /**
     * The attack button: hide the buttons, paint the selected unit's attack
     * range and keep its enemy tiles in AttackUnitBehavior, then wait for a
     * click on one of them.
     */
    method ChooseAttack(gm: GridManager) returns (ghost inRange: seq<TileId>)
      requires gm.Valid() && selectedUnit.Some? && selectedUnit.value.tile.Some?
      requires selectedUnit.value.tile.value < gm.tiles.Count()
      requires gm.tiles.objects[selectedUnit.value.tile.value].Some? && OccupantsInFactions(gm.tiles.objects)
      modifies this, gm, gm.tiles
      ensures gm.Valid() && RangeFrame(gm.tiles, old(selectedUnit).value.AttackRange())
      ensures currentBehavior == AttackUnit && Consistent() && !actionsShown
      ensures attackSelected == selectedUnit == old(selectedUnit) && gm.paintedTiles == inRange
      ensures RangeResult(gm.tiles.objects, gm.tiles.neighbourList, selectedUnit.value.tile.value, inRange,
                          false, selectedUnit.value.AttackRange())
      ensures InRange(gm.tiles.objects, gm.tiles.neighbourList, selectedUnit.value.tile.value,
                      selectedUnit.value.AttackRange(), false, inRange)
      ensures attackTiles == Enemies(inRange, gm.tiles.objects,
                                     gm.tiles.objects[selectedUnit.value.tile.value].value.factionData.value.faction)
      ensures moveTiles == old(moveTiles) && moveSelected == old(moveSelected)
    {
      var unit := selectedUnit.value;
      actionsShown := false;
      attackSelected := selectedUnit;
      currentBehavior := AttackUnit;
      attackTiles, inRange := gm.GetAndPaintTilesForAttack(unit.tile.value, unit.AttackRange());
    }

    /** The rest button: hide the buttons, ignore clicks and send a rest for the selected unit. */
    method ChooseRest(msgs: MessageManager)
      modifies this, msgs
      ensures currentBehavior == NoBehavior && Consistent() && !actionsShown
      ensures msgs.sent == old(msgs.sent) + [RestMessage(old(selectedUnit))]
      ensures selectedUnit == old(selectedUnit)
      ensures moveTiles == old(moveTiles) && moveSelected == old(moveSelected)
      ensures attackTiles == old(attackTiles) && attackSelected == old(attackSelected)
    {
      actionsShown := false;
      currentBehavior := NoBehavior;
      msgs.Send(RestMessage(selectedUnit));
    }
  }
}
