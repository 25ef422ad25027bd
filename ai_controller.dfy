/**
 * AIController: on the AI's turn it resets the tile weights, lowers the
 * weight of every tile a player unit could attack after moving, picks for
 * each AI unit one of its heaviest actions, orders those actions and performs
 * them one by one by sending messages. Math.random is a RandomSource whose
 * k-th draw is values(k).
 */
module AI {
  import opened Options
  import opened Tiles
  import opened AStar
  import opened Attacks
  import opened Units
  import opened GridManagement
  import opened Messages
  import opened AIScoring

  /** The stream of Math.random() results: every draw lies in [0, 1). */
  class RandomSource {
    const values: nat -> real
    /** How many draws were taken so far. */
    var used: nat

    ghost predicate Valid()
    {
      forall k: nat :: 0.0 <= values(k) < 1.0
    }

    constructor (values: nat -> real)
      ensures this.values == values && used == 0
    {
      this.values := values;
      used := 0;
    }

    /** Math.random(): the next draw of the stream. */
    method Next() returns (r: real)
      requires Valid()
      modifies this
      ensures r == values(old(used)) && used == old(used) + 1
      ensures 0.0 <= r < 1.0
    {
      r := values(used);
      used := used + 1;
    }
  }

  /** A unit the AI can plan for: it stands on a tile of the board and belongs to a faction. */
  predicate UnitReady(u: Unit, count: nat)
    reads u
  {
    u.tile.Some? && u.tile.value < count && u.factionData.Some?
  }

  /** An action whose unit is ready and whose move target is a tile of the board. */
  predicate ActionReady(a: AIAction, count: nat)
    reads a.unit
  {
    UnitReady(a.unit, count) && (a.moveToTile.Some? ==> a.moveToTile.value < count)
  }

  /** Every unit standing on a tile has its own tile field set. */
  ghost predicate Placed(objects: seq<Option<Unit>>)
    reads set o | o in objects && o.Some? :: o.value
  {
    forall k :: 0 <= k < |objects| && objects[k].Some? ==> objects[k].value.tile.Some?
  }

  /** An action performAction carries out without recomputing it: its move target is free and its attack target stands on a tile. */
  ghost predicate Settled(a: AIAction, objects: seq<Option<Unit>>)
    reads if a.atkUnit.Some? then {a.atkUnit.value} else {}
  {
    && (a.moveToTile.Some? ==> a.moveToTile.value < |objects| && objects[a.moveToTile.value].None?)
    && (a.atkUnit.Some? ==> a.atkUnit.value.tile.Some?)
  }

  /**
   * An action weightAIUnitMove can produce for unit: the unit's own, staying
   * put or moving to a free tile within its move range, attacking (if at all)
   * an enemy that stands on the board.
   */
  ghost predicate Proposal(a: AIAction, unit: Unit, objects: seq<Option<Unit>>, nbrs: seq<seq<TileId>>)
    reads unit, if a.atkUnit.Some? then {a.atkUnit.value} else {}
  {
    && unit.tile.Some? && unit.factionData.Some?
    && a.unit == unit
    && (a.moveToTile.Some? ==>
          && a.moveToTile.value < |objects| && objects[a.moveToTile.value].None?
          && WithinSteps(objects, nbrs, unit.tile.value, a.moveToTile.value, true, unit.MoveRange()))
    && (a.atkUnit.Some? ==> a.atkUnit in objects && HoldsEnemy(a.atkUnit, unit.factionData.value.faction))
  }

  /**
   * a is the action AIAction's constructor builds for unit from fromTile on
   * this board: it stays when fromTile is the unit's tile and moves there
   * otherwise, and its weight and target are the first maximum of the tile
   * scores over a range getTilesWithinDistance gives for the attack range.
   */
  ghost predicate Scored(a: AIAction, unit: Unit, fromTile: TileId, objects: seq<Option<Unit>>, nbrs: seq<seq<TileId>>,
                         aiWeight: seq<int>, mgr: AttackManager)
    reads unit, mgr, set o | o in objects && o.Some? :: o.value
  {
    ScoredAt(2, a, unit, fromTile, objects, nbrs, aiWeight, mgr)
  }

  /**
   * Scored, with its definition placed depth recursive steps away so that
   * lists of scored actions pass it on whole. depth is an unfolding count,
   * not modelled state; ScoredIs unfolds it. The other XAt predicates below
   * (ScoredAllAt, PickedAtDepth, WeighedAt, LostAt, ...) follow this pattern.
   */
  ghost predicate ScoredAt(depth: nat, a: AIAction, unit: Unit, fromTile: TileId, objects: seq<Option<Unit>>,
                           nbrs: seq<seq<TileId>>, aiWeight: seq<int>, mgr: AttackManager)
    reads unit, mgr, set o | o in objects && o.Some? :: o.value
    decreases depth
  {
    if depth == 0 then
      && a.unit == unit && fromTile < |aiWeight|
      && a.moveToTile == (if unit.tile == Some(fromTile) then None else Some(fromTile))
      && mgr.damageBonus.Some? && unit.factionData.Some?
      && exists inRange: seq<TileId> ::
           && InRange(objects, nbrs, fromTile, unit.AttackRange(), false, inRange)
           && (forall j :: 0 <= j < |inRange| ==> inRange[j] < |objects|)
           && (a.weight, a.atkUnit) == Heaviest(Candidates(objects, inRange, mgr, unit, aiWeight[fromTile]))
    else ScoredAt(depth - 1, a, unit, fromTile, objects, nbrs, aiWeight, mgr)
  }

  /** Scored, unfolded. */
  lemma ScoredIs(a: AIAction, unit: Unit, fromTile: TileId, objects: seq<Option<Unit>>, nbrs: seq<seq<TileId>>,
                 aiWeight: seq<int>, mgr: AttackManager)
    ensures Scored(a, unit, fromTile, objects, nbrs, aiWeight, mgr)
            <==> ScoredAt(0, a, unit, fromTile, objects, nbrs, aiWeight, mgr)
  {
    assert ScoredAt(2, a, unit, fromTile, objects, nbrs, aiWeight, mgr)
       <==> ScoredAt(1, a, unit, fromTile, objects, nbrs, aiWeight, mgr);
  }

  /** The tiles weightAIUnitMove weighs for unit: a walkable range of its move range from its tile, then that tile. */
  ghost predicate ReachOf(reach: seq<TileId>, unit: Unit, objects: seq<Option<Unit>>, nbrs: seq<seq<TileId>>)
    reads unit
  {
    && unit.tile.Some? && reach != [] && reach[|reach| - 1] == unit.tile.value
    && InRange(objects, nbrs, unit.tile.value, unit.MoveRange(), true, reach[..|reach| - 1])
  }

  /** actions holds, position by position, the action scored from each tile of reach. */
  ghost predicate ScoredAll(actions: seq<AIAction>, unit: Unit, reach: seq<TileId>, objects: seq<Option<Unit>>,
                            nbrs: seq<seq<TileId>>, aiWeight: seq<int>, mgr: AttackManager)
    reads unit, mgr, set o | o in objects && o.Some? :: o.value
  {
    ScoredAllAt(2, actions, unit, reach, objects, nbrs, aiWeight, mgr)
  }

  /** ScoredAll, with its definition placed depth recursive steps away so that callers pass it on whole. */
  ghost predicate ScoredAllAt(depth: nat, actions: seq<AIAction>, unit: Unit, reach: seq<TileId>,
                              objects: seq<Option<Unit>>, nbrs: seq<seq<TileId>>, aiWeight: seq<int>, mgr: AttackManager)
    reads unit, mgr, set o | o in objects && o.Some? :: o.value
    decreases depth
  {
    if depth == 0 then
      |actions| == |reach| && forall j :: 0 <= j < |reach| ==> Scored(actions[j], unit, reach[j], objects, nbrs, aiWeight, mgr)
    else ScoredAllAt(depth - 1, actions, unit, reach, objects, nbrs, aiWeight, mgr)
  }

  /** ScoredAll, unfolded. */
  lemma ScoredAllIs(actions: seq<AIAction>, unit: Unit, reach: seq<TileId>, objects: seq<Option<Unit>>,
                    nbrs: seq<seq<TileId>>, aiWeight: seq<int>, mgr: AttackManager)
    ensures ScoredAll(actions, unit, reach, objects, nbrs, aiWeight, mgr)
            <==> |actions| == |reach|
                 && forall j :: 0 <= j < |reach| ==> Scored(actions[j], unit, reach[j], objects, nbrs, aiWeight, mgr)
  {
    assert ScoredAllAt(2, actions, unit, reach, objects, nbrs, aiWeight, mgr)
       <==> ScoredAllAt(1, actions, unit, reach, objects, nbrs, aiWeight, mgr);
    assert ScoredAllAt(1, actions, unit, reach, objects, nbrs, aiWeight, mgr)
       <==> ScoredAllAt(0, actions, unit, reach, objects, nbrs, aiWeight, mgr);
  }

  /**
   * a is what weightAIUnitMove returns for unit and the draw r: the pick
   * PickOf makes for r among the actions scored, tile by tile, from the
   * unit's reach.
   */
  ghost predicate Picked(a: AIAction, unit: Unit, r: real, objects: seq<Option<Unit>>, nbrs: seq<seq<TileId>>,
                         aiWeight: seq<int>, mgr: AttackManager)
    reads unit, mgr, set o | o in objects && o.Some? :: o.value
  {
    PickedAtDepth(1, a, unit, r, objects, nbrs, aiWeight, mgr)
  }

  /**
   * Picked, with its definition placed depth recursive steps away: Dafny
   * unfolds one step of a recursive predicate by default, so a proof that
   * only passes Picked along does not expand the whole scoring; PickedIntro
   * and PickedIsHeaviest are where it is expanded.
   */
  ghost predicate PickedAtDepth(depth: nat, a: AIAction, unit: Unit, r: real, objects: seq<Option<Unit>>,
                                nbrs: seq<seq<TileId>>, aiWeight: seq<int>, mgr: AttackManager)
    reads unit, mgr, set o | o in objects && o.Some? :: o.value
    decreases depth
  {
    if depth == 0 then
      exists reach: seq<TileId>, actions: seq<AIAction> :: PickedVia(a, unit, r, reach, actions, objects, nbrs, aiWeight, mgr)
    else PickedAtDepth(depth - 1, a, unit, r, objects, nbrs, aiWeight, mgr)
  }

  /**
   * Picked, for the reach tiles and the actions scored from them; each
   * action is the unit's, moves to its tile of reach (or stays when that is
   * the unit's own) and attacks (if at all) a unit on the board, which is
   * what shows actions allocated no later than the other parameters.
   */
  ghost predicate PickedVia(a: AIAction, unit: Unit, r: real, reach: seq<TileId>, older actions: seq<AIAction>,
                            objects: seq<Option<Unit>>, nbrs: seq<seq<TileId>>, aiWeight: seq<int>, mgr: AttackManager)
    reads unit, mgr, set o | o in objects && o.Some? :: o.value
  {
    && |actions| == |reach|
    && (forall j :: 0 <= j < |actions| ==>
          && actions[j].unit == unit
          && actions[j].moveToTile == (if unit.tile == Some(reach[j]) then None else Some(reach[j]))
          && (actions[j].atkUnit.Some? ==> actions[j].atkUnit in objects))
    && ReachOf(reach, unit, objects, nbrs) && ScoredAll(actions, unit, reach, objects, nbrs, aiWeight, mgr)
    && 0.0 <= r < 1.0 && a == PickOf(actions, r)
  }

  /** Picked holds for a with the witnesses reach and actions. */
  lemma PickedIntro(a: AIAction, unit: Unit, r: real, reach: seq<TileId>, actions: seq<AIAction>,
                    objects: seq<Option<Unit>>, nbrs: seq<seq<TileId>>, aiWeight: seq<int>, mgr: AttackManager)
    requires PickedVia(a, unit, r, reach, actions, objects, nbrs, aiWeight, mgr)
    ensures Picked(a, unit, r, objects, nbrs, aiWeight, mgr)
  {
    assert PickedAtDepth(0, a, unit, r, objects, nbrs, aiWeight, mgr);
  }

  /**
   * actions are the actions scored from the tiles of reach, a reach of the
   * unit (ReachOf and ScoredAll); kept one recursive step away as Picked is,
   * so that a caller passes it along without expanding the scoring.
   */
  ghost predicate Weighed(actions: seq<AIAction>, unit: Unit, reach: seq<TileId>, objects: seq<Option<Unit>>,
                          nbrs: seq<seq<TileId>>, aiWeight: seq<int>, mgr: AttackManager)
    reads unit, mgr, set o | o in objects && o.Some? :: o.value
  {
    WeighedAt(3, actions, unit, reach, objects, nbrs, aiWeight, mgr)
  }

  ghost predicate WeighedAt(depth: nat, actions: seq<AIAction>, unit: Unit, reach: seq<TileId>, objects: seq<Option<Unit>>,
                            nbrs: seq<seq<TileId>>, aiWeight: seq<int>, mgr: AttackManager)
    reads unit, mgr, set o | o in objects && o.Some? :: o.value
    decreases depth
  {
    if depth == 0 then ReachOf(reach, unit, objects, nbrs) && ScoredAll(actions, unit, reach, objects, nbrs, aiWeight, mgr)
    else WeighedAt(depth - 1, actions, unit, reach, objects, nbrs, aiWeight, mgr)
  }

  /** Weighed, unfolded. */
  lemma WeighedIs(actions: seq<AIAction>, unit: Unit, reach: seq<TileId>, objects: seq<Option<Unit>>,
                  nbrs: seq<seq<TileId>>, aiWeight: seq<int>, mgr: AttackManager)
    ensures Weighed(actions, unit, reach, objects, nbrs, aiWeight, mgr)
            <==> ReachOf(reach, unit, objects, nbrs) && ScoredAll(actions, unit, reach, objects, nbrs, aiWeight, mgr)
  {
    assert WeighedAt(3, actions, unit, reach, objects, nbrs, aiWeight, mgr)
       <==> WeighedAt(2, actions, unit, reach, objects, nbrs, aiWeight, mgr);
    assert WeighedAt(2, actions, unit, reach, objects, nbrs, aiWeight, mgr)
       <==> WeighedAt(1, actions, unit, reach, objects, nbrs, aiWeight, mgr);
    assert WeighedAt(1, actions, unit, reach, objects, nbrs, aiWeight, mgr)
       <==> WeighedAt(0, actions, unit, reach, objects, nbrs, aiWeight, mgr);
  }

  /** The pick for r among the actions scored from the reach, each a proposal for the unit, is Picked and a proposal. */
  lemma PickedFrom(unit: Unit, r: real, reach: seq<TileId>, actions: seq<AIAction>, objects: seq<Option<Unit>>,
                   nbrs: seq<seq<TileId>>, aiWeight: seq<int>, mgr: AttackManager)
    requires Weighed(actions, unit, reach, objects, nbrs, aiWeight, mgr)
    requires actions != [] && forall b :: b in actions ==> Proposal(b, unit, objects, nbrs)
    requires 0.0 <= r < 1.0
    ensures PickedAmong(PickOf(actions, r), actions, r)
    ensures Picked(PickOf(actions, r), unit, r, objects, nbrs, aiWeight, mgr)
    ensures Proposal(PickOf(actions, r), unit, objects, nbrs)
  {
    WeighedIs(actions, unit, reach, objects, nbrs, aiWeight, mgr);
    ScoredAllIs(actions, unit, reach, objects, nbrs, aiWeight, mgr);
    var a := PickOf(actions, r);
    PickOfHeaviest(actions, r);
    forall j | 0 <= j < |actions|
      ensures && actions[j].unit == unit
              && actions[j].moveToTile == (if unit.tile == Some(reach[j]) then None else Some(reach[j]))
              && (actions[j].atkUnit.Some? ==> actions[j].atkUnit in objects)
    {
      assert Proposal(actions[j], unit, objects, nbrs);
      assert Scored(actions[j], unit, reach[j], objects, nbrs, aiWeight, mgr);
      ScoredIs(actions[j], unit, reach[j], objects, nbrs, aiWeight, mgr);
    }
    PickedIntro(a, unit, r, reach, actions, objects, nbrs, aiWeight, mgr);
  }

  /**
   * A Picked action is one of the actions scored from the unit's reach, none
   * of them outweighs it, and it sits at floor(r * lastTied) of their
   * heaviest run, never at the run's end unless the run has length one.
   */
  lemma PickedIsHeaviest(a: AIAction, unit: Unit, r: real, objects: seq<Option<Unit>>, nbrs: seq<seq<TileId>>,
                         aiWeight: seq<int>, mgr: AttackManager)
    requires Picked(a, unit, r, objects, nbrs, aiWeight, mgr)
    ensures exists reach: seq<TileId>, actions: seq<AIAction> ::
              && ReachOf(reach, unit, objects, nbrs) && ScoredAll(actions, unit, reach, objects, nbrs, aiWeight, mgr)
              && PickedAmong(a, actions, r)
  {
    assert PickedAtDepth(0, a, unit, r, objects, nbrs, aiWeight, mgr);
    var reach, actions :| PickedVia(a, unit, r, reach, actions, objects, nbrs, aiWeight, mgr);
    ScoredAllIs(actions, unit, reach, objects, nbrs, aiWeight, mgr);
    PickOfHeaviest(actions, r);
  }

  /** ret[j] is Picked for units[j] with the draw values(from + j), and a proposal for it, position by position. */
  ghost predicate AllPicked(ret: seq<AIAction>, units: seq<Unit>, values: nat -> real, from: nat,
                            objects: seq<Option<Unit>>, nbrs: seq<seq<TileId>>, aiWeight: seq<int>, mgr: AttackManager)
    reads units, mgr, set o | o in objects && o.Some? :: o.value
  {
    AllPickedAtDepth(1, ret, units, values, from, objects, nbrs, aiWeight, mgr)
  }

  /** AllPicked, with its definition placed depth recursive steps away, as PickedAtDepth does for Picked. */
  ghost predicate AllPickedAtDepth(depth: nat, ret: seq<AIAction>, units: seq<Unit>, values: nat -> real, from: nat,
                                   objects: seq<Option<Unit>>, nbrs: seq<seq<TileId>>, aiWeight: seq<int>,
                                   mgr: AttackManager)
    reads units, mgr, set o | o in objects && o.Some? :: o.value
    decreases depth
  {
    if depth == 0 then
      && |ret| == |units|
      && forall j :: 0 <= j < |ret| ==>
           && ret[j].unit == units[j]
           && Picked(ret[j], units[j], values(from + j), objects, nbrs, aiWeight, mgr)
           && (ret[j].atkUnit.Some? ==> ret[j].atkUnit in objects)
           && Proposal(ret[j], units[j], objects, nbrs)
    else AllPickedAtDepth(depth - 1, ret, units, values, from, objects, nbrs, aiWeight, mgr)
  }

  /** What AllPicked says, position by position. */
  lemma AllPickedAt(ret: seq<AIAction>, units: seq<Unit>, values: nat -> real, from: nat, objects: seq<Option<Unit>>,
                    nbrs: seq<seq<TileId>>, aiWeight: seq<int>, mgr: AttackManager)
    requires AllPicked(ret, units, values, from, objects, nbrs, aiWeight, mgr)
    ensures |ret| == |units|
    ensures forall j :: 0 <= j < |ret| ==>
              && ret[j].unit == units[j]
              && Picked(ret[j], units[j], values(from + j), objects, nbrs, aiWeight, mgr)
              && Proposal(ret[j], units[j], objects, nbrs)
  {
    assert AllPickedAtDepth(0, ret, units, values, from, objects, nbrs, aiWeight, mgr);
  }

  /** No units, no actions. */
  lemma AllPickedEmpty(units: seq<Unit>, values: nat -> real, from: nat, objects: seq<Option<Unit>>,
                       nbrs: seq<seq<TileId>>, aiWeight: seq<int>, mgr: AttackManager)
    requires units == []
    ensures AllPicked([], units, values, from, objects, nbrs, aiWeight, mgr)
  {
    assert AllPickedAtDepth(0, [], units, values, from, objects, nbrs, aiWeight, mgr);
  }

  /** One more Picked action, for the next unit and the next draw. */
  lemma AllPickedSnoc(ret: seq<AIAction>, a: AIAction, units: seq<Unit>, i: nat, values: nat -> real, from: nat,
                      objects: seq<Option<Unit>>, nbrs: seq<seq<TileId>>, aiWeight: seq<int>, mgr: AttackManager)
    requires i < |units| && AllPicked(ret, units[..i], values, from, objects, nbrs, aiWeight, mgr)
    requires a.unit == units[i] && Picked(a, units[i], values(from + i), objects, nbrs, aiWeight, mgr)
    requires Proposal(a, units[i], objects, nbrs)
    ensures AllPicked(ret + [a], units[..i + 1], values, from, objects, nbrs, aiWeight, mgr)
  {
    assert AllPickedAtDepth(0, ret, units[..i], values, from, objects, nbrs, aiWeight, mgr);
    var ret', units' := ret + [a], units[..i + 1];
    forall j | 0 <= j < |ret'|
      ensures && ret'[j].unit == units'[j]
              && Picked(ret'[j], units'[j], values(from + j), objects, nbrs, aiWeight, mgr)
              && Proposal(ret'[j], units'[j], objects, nbrs)
    {
      if j < i {
        assert ret'[j] == ret[j] && units'[j] == units[..i][j];
      }
    }
    assert AllPickedAtDepth(0, ret', units', values, from, objects, nbrs, aiWeight, mgr);
  }

  /** The units the actions belong to. */
  function UnitsOf(actions: seq<AIAction>): set<Unit>
  {
    set b | b in actions :: b.unit
  }

  /** a is what weightAIUnitMove returns for a's unit with some draw of Math.random. */
  ghost predicate Drawn(a: AIAction, objects: seq<Option<Unit>>, nbrs: seq<seq<TileId>>, aiWeight: seq<int>,
                        mgr: AttackManager)
    reads a.unit, mgr, set o | o in objects && o.Some? :: o.value
  {
    DrawnAtDepth(1, a, objects, nbrs, aiWeight, mgr)
  }

  /** Drawn, with its definition placed depth recursive steps away, as PickedAtDepth does for Picked. */
  ghost predicate DrawnAtDepth(depth: nat, a: AIAction, objects: seq<Option<Unit>>, nbrs: seq<seq<TileId>>,
                               aiWeight: seq<int>, mgr: AttackManager)
    reads a.unit, mgr, set o | o in objects && o.Some? :: o.value
    decreases depth
  {
    if depth == 0 then exists r: real :: Picked(a, a.unit, r, objects, nbrs, aiWeight, mgr)
    else DrawnAtDepth(depth - 1, a, objects, nbrs, aiWeight, mgr)
  }

  /**
   * list is list0 with some actions at positions lo to hi replaced by a
   * fresh pick of weightAIUnitMove for the same unit.
   */
  ghost predicate Repicked(list: seq<AIAction>, list0: seq<AIAction>, lo: int, hi: int, objects: seq<Option<Unit>>,
                           nbrs: seq<seq<TileId>>, aiWeight: seq<int>, mgr: AttackManager)
    reads UnitsOf(list), mgr, set o | o in objects && o.Some? :: o.value
  {
    && |list| == |list0|
    && forall j :: 0 <= j < |list| ==>
         || list[j] == list0[j]
         || (lo <= j <= hi && list[j].unit == list0[j].unit && Drawn(list[j], objects, nbrs, aiWeight, mgr))
  }

  /** Replacing the action at i by a pick for the same unit is a re-pick at i. */
  lemma RepickedOne(list: seq<AIAction>, list0: seq<AIAction>, i: nat, r: real, objects: seq<Option<Unit>>,
                    nbrs: seq<seq<TileId>>, aiWeight: seq<int>, mgr: AttackManager)
    requires i < |list| == |list0| && forall j :: 0 <= j < |list| && j != i ==> list[j] == list0[j]
    requires list[i].unit == list0[i].unit && Picked(list[i], list[i].unit, r, objects, nbrs, aiWeight, mgr)
    ensures Repicked(list, list0, i, i, objects, nbrs, aiWeight, mgr)
  {
    assert DrawnAtDepth(0, list[i], objects, nbrs, aiWeight, mgr);
  }

  /** Two rounds of re-picking, the second within a wider or equal window, are one. */
  lemma RepickedTrans(list2: seq<AIAction>, list1: seq<AIAction>, list0: seq<AIAction>, lo: int, hi1: int, lo2: int, hi2: int,
                      objects: seq<Option<Unit>>, nbrs: seq<seq<TileId>>, aiWeight: seq<int>, mgr: AttackManager)
    requires Repicked(list1, list0, lo, hi1, objects, nbrs, aiWeight, mgr)
    requires Repicked(list2, list1, lo2, hi2, objects, nbrs, aiWeight, mgr)
    requires lo <= lo2 && hi1 <= hi2
    ensures Repicked(list2, list0, lo, hi2, objects, nbrs, aiWeight, mgr)
  {
    forall j | 0 <= j < |list2|
      ensures || list2[j] == list0[j]
              || (lo <= j <= hi2 && list2[j].unit == list0[j].unit
                  && Drawn(list2[j], objects, nbrs, aiWeight, mgr))
    {
      assert list2[j] == list1[j] || (lo2 <= j <= hi2 && list2[j].unit == list1[j].unit);
    }
  }

  /** One more scored action, from the next tile of reach. */
  lemma ScoredAllSnoc(actions: seq<AIAction>, a: AIAction, unit: Unit, reach: seq<TileId>, i: nat,
                      objects: seq<Option<Unit>>, nbrs: seq<seq<TileId>>, aiWeight: seq<int>, mgr: AttackManager)
    requires i < |reach| && ScoredAll(actions, unit, reach[..i], objects, nbrs, aiWeight, mgr)
    requires Scored(a, unit, reach[i], objects, nbrs, aiWeight, mgr)
    ensures ScoredAll(actions + [a], unit, reach[..i + 1], objects, nbrs, aiWeight, mgr)
  {
    ScoredAllIs(actions, unit, reach[..i], objects, nbrs, aiWeight, mgr);
    ScoredAllIs(actions + [a], unit, reach[..i + 1], objects, nbrs, aiWeight, mgr);
    var actions', reach' := actions + [a], reach[..i + 1];
    forall j | 0 <= j < |reach'|
      ensures Scored(actions'[j], unit, reach'[j], objects, nbrs, aiWeight, mgr)
    {
      if j < i {
        assert actions'[j] == actions[j] && reach'[j] == reach[..i][j];
      }
    }
  }

  /** A scored action from a tile the unit stands on or may walk to is a proposal for the unit. */
  lemma ScoredIsProposal(a: AIAction, unit: Unit, fromTile: TileId, objects: seq<Option<Unit>>, nbrs: seq<seq<TileId>>,
                         aiWeight: seq<int>, mgr: AttackManager)
    requires Scored(a, unit, fromTile, objects, nbrs, aiWeight, mgr) && unit.tile.Some?
    requires Some(fromTile) != unit.tile ==>
               && fromTile < |objects| && objects[fromTile].None?
               && WithinSteps(objects, nbrs, unit.tile.value, fromTile, true, unit.MoveRange())
    ensures Proposal(a, unit, objects, nbrs)
  {
    ScoredIs(a, unit, fromTile, objects, nbrs, aiWeight, mgr);
    var inRange: seq<TileId> :| && InRange(objects, nbrs, fromTile, unit.AttackRange(), false, inRange)
                                && (forall j :: 0 <= j < |inRange| ==> inRange[j] < |objects|)
                                && (a.weight, a.atkUnit) == Heaviest(Candidates(objects, inRange, mgr, unit, aiWeight[fromTile]));
    HeaviestIsEnemy(objects, inRange, mgr, unit, aiWeight[fromTile]);
  }

  /** The lists of xss one after the other. */
  function Concat(xss: seq<seq<TileId>>): (r: seq<TileId>)
    ensures forall k :: k in r <==> exists j :: 0 <= j < |xss| && k in xss[j]
  {
    if xss == [] then []
    else
      var init := Concat(xss[..|xss| - 1]);
      assert forall j :: 0 <= j < |xss| - 1 ==> xss[..|xss| - 1][j] == xss[j];
      init + xss[|xss| - 1]
  }

  /** The hit lists of every player unit, unit by unit and move tile by move tile, one after the other. */
  function Threats(hits: seq<seq<seq<TileId>>>): seq<TileId>
  {
    if hits == [] then [] else Threats(hits[..|hits| - 1]) + Concat(hits[|hits| - 1])
  }

  /**
   * moves[i] is the walkable range of player unit units[i] for its full move
   * range fullMoveRanges[i], and hits[i][j] the attack range of that unit
   * from the tile moves[i][j], each as getTilesWithinDistance gives it.
   */
  ghost predicate PlayerReach(objects: seq<Option<Unit>>, nbrs: seq<seq<TileId>>, units: seq<Unit>, fullMoveRanges: seq<int>,
                              moves: seq<seq<TileId>>, hits: seq<seq<seq<TileId>>>)
    reads set u | u in units
  {
    PlayerReachAt(2, objects, nbrs, units, fullMoveRanges, moves, hits)
  }

  /** PlayerReach, with its definition placed depth recursive steps away so that callers pass it on whole. */
  ghost predicate PlayerReachAt(depth: nat, objects: seq<Option<Unit>>, nbrs: seq<seq<TileId>>, units: seq<Unit>,
                                fullMoveRanges: seq<int>, moves: seq<seq<TileId>>, hits: seq<seq<seq<TileId>>>)
    reads set u | u in units
    decreases depth
  {
    if depth == 0 then
      && |moves| == |units| && |hits| == |units| && |fullMoveRanges| == |units|
      && forall i :: 0 <= i < |units| ==>
           && units[i].tile.Some?
           && InRange(objects, nbrs, units[i].tile.value, fullMoveRanges[i], true, moves[i])
           && HitLists(objects, nbrs, moves[i], units[i].AttackRange(), hits[i])
    else PlayerReachAt(depth - 1, objects, nbrs, units, fullMoveRanges, moves, hits)
  }

  /** PlayerReach, unfolded. */
  lemma PlayerReachIs(objects: seq<Option<Unit>>, nbrs: seq<seq<TileId>>, units: seq<Unit>, fullMoveRanges: seq<int>,
                      moves: seq<seq<TileId>>, hits: seq<seq<seq<TileId>>>)
    ensures PlayerReach(objects, nbrs, units, fullMoveRanges, moves, hits)
            <==> PlayerReachAt(0, objects, nbrs, units, fullMoveRanges, moves, hits)
  {
    assert PlayerReachAt(2, objects, nbrs, units, fullMoveRanges, moves, hits)
       <==> PlayerReachAt(1, objects, nbrs, units, fullMoveRanges, moves, hits);
  }

  /** hits[j] is the attack range atk from the tile froms[j], as getTilesWithinDistance gives it. */
  ghost predicate HitLists(objects: seq<Option<Unit>>, nbrs: seq<seq<TileId>>, froms: seq<TileId>, atk: int,
                          hits: seq<seq<TileId>>)
  {
    HitListsAt(2, objects, nbrs, froms, atk, hits)
  }

  /** HitLists, with its definition placed depth recursive steps away so that callers pass it on whole. */
  ghost predicate HitListsAt(depth: nat, objects: seq<Option<Unit>>, nbrs: seq<seq<TileId>>, froms: seq<TileId>, atk: int,
                            hits: seq<seq<TileId>>)
    decreases depth
  {
    if depth == 0 then
      && |hits| == |froms|
      && forall j :: 0 <= j < |froms| ==> InRange(objects, nbrs, froms[j], atk, false, hits[j])
    else HitListsAt(depth - 1, objects, nbrs, froms, atk, hits)
  }

  /** HitLists, unfolded. */
  lemma HitListsIs(objects: seq<Option<Unit>>, nbrs: seq<seq<TileId>>, froms: seq<TileId>, atk: int, hits: seq<seq<TileId>>)
    ensures HitLists(objects, nbrs, froms, atk, hits)
            <==> |hits| == |froms| && forall j :: 0 <= j < |froms| ==> InRange(objects, nbrs, froms[j], atk, false, hits[j])
  {
    assert HitListsAt(2, objects, nbrs, froms, atk, hits) <==> HitListsAt(1, objects, nbrs, froms, atk, hits);
    assert HitListsAt(1, objects, nbrs, froms, atk, hits) <==> HitListsAt(0, objects, nbrs, froms, atk, hits);
  }

  /** The attack ranges from the first n tiles of froms, extended by the one from froms[n]. */
  lemma HitListsSnoc(objects: seq<Option<Unit>>, nbrs: seq<seq<TileId>>, froms: seq<TileId>, atk: int,
                    hits: seq<seq<TileId>>, n: nat, h: seq<TileId>)
    requires n < |froms| && HitLists(objects, nbrs, froms[..n], atk, hits)
    requires InRange(objects, nbrs, froms[n], atk, false, h)
    ensures HitLists(objects, nbrs, froms[..n + 1], atk, hits + [h])
  {
    HitListsIs(objects, nbrs, froms[..n], atk, hits);
    HitListsIs(objects, nbrs, froms[..n + 1], atk, hits + [h]);
  }

  /** threats lists every tile a player unit threatens, once per (unit, move tile) pair from which it is in attack range. */
  ghost predicate ThreatsOf(objects: seq<Option<Unit>>, nbrs: seq<seq<TileId>>, units: seq<Unit>, fullMoveRanges: seq<int>,
                            threats: seq<TileId>)
    reads set u | u in units
  {
    ThreatsAtDepth(1, objects, nbrs, units, fullMoveRanges, threats)
  }

  /** ThreatsOf, with its definition placed depth recursive steps away, as PickedAtDepth does for Picked. */
  ghost predicate ThreatsAtDepth(depth: nat, objects: seq<Option<Unit>>, nbrs: seq<seq<TileId>>, units: seq<Unit>,
                                 fullMoveRanges: seq<int>, threats: seq<TileId>)
    reads set u | u in units
    decreases depth
  {
    if depth == 0 then
      exists moves: seq<seq<TileId>>, hits: seq<seq<seq<TileId>>> ::
        PlayerReach(objects, nbrs, units, fullMoveRanges, moves, hits) && threats == Threats(hits)
    else ThreatsAtDepth(depth - 1, objects, nbrs, units, fullMoveRanges, threats)
  }

  /** ThreatsOf holds with the witnesses moves and hits. */
  lemma ThreatsIntro(objects: seq<Option<Unit>>, nbrs: seq<seq<TileId>>, units: seq<Unit>, fullMoveRanges: seq<int>,
                     moves: seq<seq<TileId>>, hits: seq<seq<seq<TileId>>>)
    requires PlayerReach(objects, nbrs, units, fullMoveRanges, moves, hits)
    ensures ThreatsOf(objects, nbrs, units, fullMoveRanges, Threats(hits))
  {
    assert ThreatsAtDepth(0, objects, nbrs, units, fullMoveRanges, Threats(hits));
  }

  lemma ConcatSnoc(xss: seq<seq<TileId>>, xs: seq<TileId>)
    ensures Concat(xss + [xs]) == Concat(xss) + xs
  {
    assert (xss + [xs])[..|xss|] == xss;
  }

  lemma ThreatsSnoc(hits: seq<seq<seq<TileId>>>, hs: seq<seq<TileId>>)
    ensures Threats(hits + [hs]) == Threats(hits) + Concat(hs)
  {
    assert (hits + [hs])[..|hits|] == hits;
  }

  /** The positions j at which xss[j] holds tile k. */
  ghost function Holding(xss: seq<seq<TileId>>, k: TileId): set<nat>
  {
    set j: nat | j < |xss| && k in xss[j]
  }

  /**
   * The number of (player unit, move tile, threatened tile) triples whose
   * threatened tile is k: for each unit i, the number of its move tiles j
   * from which k is in its attack range hits[i][j].
   */
  ghost function ThreatCount(hits: seq<seq<seq<TileId>>>, k: TileId): nat
  {
    if hits == [] then 0 else ThreatCount(hits[..|hits| - 1], k) + |Holding(hits[|hits| - 1], k)|
  }

  /** A list without repeats holds k at most once. */
  lemma {:induction false} DistinctOnce(xs: seq<TileId>, k: TileId)
    requires Distinct(xs)
    ensures multiset(xs)[k] == if k in xs then 1 else 0
  {
    if xs != [] {
      var init := xs[..|xs| - 1];
      assert xs == init + [xs[|xs| - 1]];
      assert Distinct(init);
      DistinctOnce(init, k);
      assert xs[|xs| - 1] !in init;
    }
  }

  /** Lists without repeats, one after the other, hold k once per list that holds it. */
  lemma {:induction false} ConcatCount(xss: seq<seq<TileId>>, k: TileId)
    requires forall j :: 0 <= j < |xss| ==> Distinct(xss[j])
    ensures multiset(Concat(xss))[k] == |Holding(xss, k)|
  {
    if xss != [] {
      var n := |xss| - 1;
      var init := xss[..n];
      assert xss == init + [xss[n]];
      ConcatSnoc(init, xss[n]);
      ConcatCount(init, k);
      DistinctOnce(xss[n], k);
      assert multiset(Concat(xss)) == multiset(Concat(init)) + multiset(xss[n]);
      if k in xss[n] {
        assert Holding(xss, k) == Holding(init, k) + {n};
      } else {
        assert Holding(xss, k) == Holding(init, k);
      }
    }
  }

  /**
   * When every hit list is free of repeats, the threat list holds tile k
   * exactly ThreatCount(hits, k) times.
   */
  lemma {:induction false} ThreatsCount(hits: seq<seq<seq<TileId>>>, k: TileId)
    requires forall i, j :: 0 <= i < |hits| && 0 <= j < |hits[i]| ==> Distinct(hits[i][j])
    ensures multiset(Threats(hits))[k] == ThreatCount(hits, k)
  {
    if hits != [] {
      var n := |hits| - 1;
      assert hits == hits[..n] + [hits[n]];
      ThreatsSnoc(hits[..n], hits[n]);
      ThreatsCount(hits[..n], k);
      ConcatCount(hits[n], k);
      assert multiset(Threats(hits)) == multiset(Threats(hits[..n])) + multiset(Concat(hits[n]));
    }
  }

  /**
   * The player units' reach: every hit list is a range result and so holds
   * each tile once, and the threat list holds tile k once per (unit, move
   * tile) pair from which k is in attack range.
   */
  lemma ThreatsCounted(objects: seq<Option<Unit>>, nbrs: seq<seq<TileId>>, units: seq<Unit>, fullMoveRanges: seq<int>,
                       moves: seq<seq<TileId>>, hits: seq<seq<seq<TileId>>>, k: TileId)
    requires PlayerReach(objects, nbrs, units, fullMoveRanges, moves, hits)
    ensures forall i, j :: 0 <= i < |hits| && 0 <= j < |hits[i]| ==> Distinct(hits[i][j])
    ensures multiset(Threats(hits))[k] == ThreatCount(hits, k)
  {
    PlayerReachIs(objects, nbrs, units, fullMoveRanges, moves, hits);
    forall i, j | 0 <= i < |hits| && 0 <= j < |hits[i]|
      ensures Distinct(hits[i][j])
    {
      HitListsIs(objects, nbrs, moves[i], units[i].AttackRange(), hits[i]);
      RangeDistinct(objects, nbrs, moves[i][j], units[i].AttackRange(), false, hits[i][j]);
    }
    ThreatsCount(hits, k);
  }

  /**
   * A threat list of the player units holds tile k once per (unit, move
   * tile) pair from which k is in that unit's attack range.
   */
  lemma ThreatsOfCounted(objects: seq<Option<Unit>>, nbrs: seq<seq<TileId>>, units: seq<Unit>, fullMoveRanges: seq<int>,
                         threats: seq<TileId>, k: TileId)
    requires ThreatsOf(objects, nbrs, units, fullMoveRanges, threats)
    ensures exists moves, hits :: && PlayerReach(objects, nbrs, units, fullMoveRanges, moves, hits)
                                  && threats == Threats(hits) && multiset(threats)[k] == ThreatCount(hits, k)
  {
    assert ThreatsAtDepth(1, objects, nbrs, units, fullMoveRanges, threats)
       <==> ThreatsAtDepth(0, objects, nbrs, units, fullMoveRanges, threats);
    var moves, hits :| PlayerReach(objects, nbrs, units, fullMoveRanges, moves, hits) && threats == Threats(hits);
    ThreatsCounted(objects, nbrs, units, fullMoveRanges, moves, hits, k);
  }

  /** The tiles a unit weighs hold each tile once: its walkable range, which leaves out its own tile, then that tile. */
  lemma ReachDistinct(reach: seq<TileId>, unit: Unit, objects: seq<Option<Unit>>, nbrs: seq<seq<TileId>>)
    requires ReachOf(reach, unit, objects, nbrs)
    ensures Distinct(reach)
  {
    var src, range := unit.tile.value, reach[..|reach| - 1];
    RangeDistinct(objects, nbrs, src, unit.MoveRange(), true, range);
    if src in range {
      InRangeIs(objects, nbrs, src, unit.MoveRange(), true, range);
      var answers :| RangeAnswer(objects, nbrs, src, unit.MoveRange(), true, answers, range);
      RangeSound(objects, nbrs, src, unit.MoveRange(), true, answers, range, src);
    }
    assert reach == range + [src];
  }

  /** The reach of the first i player units, extended by unit i's move tiles m and hit lists h. */
  lemma PlayerReachSnoc(objects: seq<Option<Unit>>, nbrs: seq<seq<TileId>>, units: seq<Unit>, fullMoveRanges: seq<int>,
                        moves: seq<seq<TileId>>, hits: seq<seq<seq<TileId>>>, i: nat, m: seq<TileId>, h: seq<seq<TileId>>)
    requires i < |units| == |fullMoveRanges|
    requires PlayerReach(objects, nbrs, units[..i], fullMoveRanges[..i], moves, hits)
    requires units[i].tile.Some? && InRange(objects, nbrs, units[i].tile.value, fullMoveRanges[i], true, m)
    requires HitLists(objects, nbrs, m, units[i].AttackRange(), h)
    ensures PlayerReach(objects, nbrs, units[..i + 1], fullMoveRanges[..i + 1], moves + [m], hits + [h])
  {
    PlayerReachIs(objects, nbrs, units[..i], fullMoveRanges[..i], moves, hits);
    PlayerReachIs(objects, nbrs, units[..i + 1], fullMoveRanges[..i + 1], moves + [m], hits + [h]);
    var us, frs, ms, hs := units[..i + 1], fullMoveRanges[..i + 1], moves + [m], hits + [h];
    forall k | 0 <= k < |us|
      ensures && us[k].tile.Some?
              && InRange(objects, nbrs, us[k].tile.value, frs[k], true, ms[k])
              && HitLists(objects, nbrs, ms[k], us[k].AttackRange(), hs[k])
    {
      if k < i {
        assert us[k] == units[..i][k] && frs[k] == fullMoveRanges[..i][k] && ms[k] == moves[k] && hs[k] == hits[k];
      }
    }
  }

  /** The board facts the range queries keep: occupants, neighbours and AI weights. */
  twostate predicate BoardKept(gm: GridManager)
    reads gm, gm.grid, gm.tiles
  {
    && gm.Valid()
    && gm.tiles.objects == old(gm.tiles.objects)
    && gm.tiles.neighbourList == old(gm.tiles.neighbourList)
    && gm.tiles.aiWeight == old(gm.tiles.aiWeight)
  }

  /** Weights w are weights w0 with one point taken off a tile per occurrence of it in xs. */
  ghost predicate Lost(w0: seq<int>, w: seq<int>, xs: seq<TileId>)
  {
    LostAt(2, w0, w, xs)
  }

  /** Lost, with its definition placed depth recursive steps away so that loops pass it on whole. */
  ghost predicate LostAt(depth: nat, w0: seq<int>, w: seq<int>, xs: seq<TileId>)
    decreases depth
  {
    if depth == 0 then
      && |w| == |w0|
      && forall k :: 0 <= k < |w0| ==> w[k] == w0[k] - multiset(xs)[k]
    else LostAt(depth - 1, w0, w, xs)
  }

  /** Lost, unfolded. */
  lemma LostIs(w0: seq<int>, w: seq<int>, xs: seq<TileId>)
    ensures Lost(w0, w, xs) <==> |w| == |w0| && forall k :: 0 <= k < |w0| ==> w[k] == w0[k] - multiset(xs)[k]
  {
    assert LostAt(2, w0, w, xs) <==> LostAt(1, w0, w, xs);
    assert LostAt(1, w0, w, xs) <==> LostAt(0, w0, w, xs);
  }

  /** Losing nothing leaves the weights as they are. */
  lemma LostNone(w: seq<int>)
    ensures Lost(w, w, [])
  {
    LostIs(w, w, []);
  }

  /** Losing xs and then ys is losing xs + ys. */
  lemma LostTrans(w0: seq<int>, w1: seq<int>, w2: seq<int>, xs: seq<TileId>, ys: seq<TileId>)
    requires Lost(w0, w1, xs) && Lost(w1, w2, ys)
    ensures Lost(w0, w2, xs + ys)
  {
    LostIs(w0, w1, xs);
    LostIs(w1, w2, ys);
    LostIs(w0, w2, xs + ys);
    assert multiset(xs + ys) == multiset(xs) + multiset(ys);
  }

  /** Taking one point off tile t of weights that lost one point per entry of done. */
  lemma LoseOne(w0: seq<int>, w: seq<int>, done: seq<TileId>, t: TileId)
    requires t < |w| && Lost(w0, w, done)
    ensures Lost(w0, w[t := w[t] - 1], done + [t])
  {
    LostIs(w0, w, done);
    LostIs(w0, w[t := w[t] - 1], done + [t]);
    assert multiset(done + [t]) == multiset(done) + multiset{t};
  }

  /** The loop of weightPlayerUnitAtkTile: each tile of ts loses one AI weight point per occurrence. */
  method LosePerTile(tiles: TileGraph<Unit>, ts: seq<TileId>)
    requires tiles.Valid() && tiles.Clean() && tiles.GZero()
    requires forall j :: 0 <= j < |ts| ==> ts[j] < tiles.Count()
    modifies tiles
    ensures tiles.Valid() && tiles.Clean() && tiles.GZero()
    ensures tiles.objects == old(tiles.objects) && tiles.neighbourList == old(tiles.neighbourList)
    ensures Lost(old(tiles.aiWeight), tiles.aiWeight, ts)
  {
    ghost var w0 := tiles.aiWeight;
    assert ts[..0] == [];
    LostNone(w0);
    for i := 0 to |ts|
      invariant tiles.Valid() && tiles.Clean() && tiles.GZero()
      invariant tiles.objects == old(tiles.objects) && tiles.neighbourList == old(tiles.neighbourList)
      invariant Lost(w0, tiles.aiWeight, ts[..i])
    {
      LoseOne(w0, tiles.aiWeight, ts[..i], ts[i]);
      assert ts[..i + 1] == ts[..i] + [ts[i]];
      tiles.SetAiWeight(ts[i], tiles.aiWeight[ts[i]] - 1);
    }
    assert ts[..|ts|] == ts;
  }

  /**
   * One tile of the constructor's scan: an enemy on the tile raises the
   * tile's score as TileCandidate says (c is that candidate) and may become
   * the heaviest attack; any score above the maximum so far replaces it.
   */
  method ScanTile(objects: seq<Option<Unit>>, tile: TileId, mgr: AttackManager, unit: Unit, base: int,
                  maxWeight: Weight, heaviestAtk: Option<Unit>, ghost c: Candidate)
    returns (maxWeight': Weight, heaviestAtk': Option<Unit>)
    requires tile < |objects| && mgr.damageBonus.Some? && unit.factionData.Some?
    requires c == TileCandidate(objects, tile, mgr, unit, base)
    ensures (maxWeight', heaviestAtk') == Step((maxWeight, heaviestAtk), c)
  {
    maxWeight', heaviestAtk' := maxWeight, heaviestAtk;
    var tempWeight := base;
    var occupant := objects[tile];
    if occupant.Some? && occupant.value.factionData.Some?
       && occupant.value.factionData.value.faction != unit.factionData.value.faction {
      var targetUnit := occupant.value;
      tempWeight := tempWeight + 2;
      var predictedAtk := AttackFor(mgr, unit, targetUnit);
      if predictedAtk.bonusDamage > 0.0 {
        tempWeight := tempWeight + 2;
      }
      if predictedAtk.isTargetDead {
        tempWeight := tempWeight + 5;
      } else if targetUnit.HP() - predictedAtk.totalDamage < 0.2 {
        tempWeight := tempWeight + 3;
      }
      if Less(maxWeight', Fin(tempWeight)) {
        maxWeight' := Fin(tempWeight);
        heaviestAtk' := Some(targetUnit);
      }
    }
    if Less(maxWeight', Fin(tempWeight)) {
      maxWeight' := Fin(tempWeight);
      heaviestAtk' := None;
    }
  }

  /** The scan of the constructor over the tiles ts: the first maximal candidate, as Heaviest says. */
  method Scan(objects: seq<Option<Unit>>, ts: seq<TileId>, mgr: AttackManager, unit: Unit, base: int)
    returns (maxWeight: Weight, heaviestAtk: Option<Unit>)
    requires forall j :: 0 <= j < |ts| ==> ts[j] < |objects|
    requires mgr.damageBonus.Some? && unit.factionData.Some?
    ensures (maxWeight, heaviestAtk) == Heaviest(Candidates(objects, ts, mgr, unit, base))
  {
    ghost var cs := Candidates(objects, ts, mgr, unit, base);
    maxWeight, heaviestAtk := NegInf, None;
    for i := 0 to |ts|
      invariant (maxWeight, heaviestAtk) == Heaviest(cs[..i])
    {
      HeaviestSnoc(cs, i);
      maxWeight, heaviestAtk := ScanTile(objects, ts[i], mgr, unit, base, maxWeight, heaviestAtk, cs[i]);
    }
    assert cs[..|ts|] == cs;
  }

  /** The attack target the scan settles on, if any, is an enemy standing on one of the scanned tiles. */
  lemma HeaviestIsEnemy(objects: seq<Option<Unit>>, ts: seq<TileId>, mgr: AttackManager, unit: Unit, base: int)
    requires mgr.damageBonus.Some? && unit.factionData.Some?
    requires forall j :: 0 <= j < |ts| ==> ts[j] < |objects|
    ensures var atk := Heaviest(Candidates(objects, ts, mgr, unit, base)).1;
            atk.Some? ==> atk in objects && HoldsEnemy(atk, unit.factionData.value.faction)
  {
    var cs := Candidates(objects, ts, mgr, unit, base);
    HeaviestIsFirstMax(cs);
    if Heaviest(cs).1.Some? {
      var i :| 0 <= i < |cs| && Heaviest(cs) == (Fin(cs[i].score), cs[i].enemy);
      assert cs[i] == TileCandidate(objects, ts[i], mgr, unit, base);
      assert objects[ts[i]] in objects;
    }
  }

  /**
   * AIAction's constructor: stay (moveToTile None) when fromTile is the
   * unit's tile, else move there; the weight and attack target are the
   * first maximum of the scores of the tiles in attack range of fromTile.
   */
  method NewAIAction(gm: GridManager, mgr: AttackManager, unit: Unit, fromTile: TileId)
    returns (a: AIAction, ghost inRange: seq<TileId>)
    requires gm.Valid() && fromTile < gm.tiles.Count()
    requires mgr.damageBonus.Some? && unit.factionData.Some?
    modifies gm.tiles
    ensures BoardKept(gm)
    ensures RangeResult(gm.tiles.objects, gm.tiles.neighbourList, fromTile, inRange, false, unit.AttackRange())
    ensures InRange(gm.tiles.objects, gm.tiles.neighbourList, fromTile, unit.AttackRange(), false, inRange)
    ensures a.unit == unit
    ensures a.moveToTile == if unit.tile == Some(fromTile) then None else Some(fromTile)
    ensures (a.weight, a.atkUnit)
         == Heaviest(Candidates(gm.tiles.objects, inRange, mgr, unit, gm.tiles.aiWeight[fromTile]))
    ensures a.atkUnit.Some? ==> a.atkUnit in gm.tiles.objects && HoldsEnemy(a.atkUnit, unit.factionData.value.faction)
  {
    var moveToTile := if unit.tile != Some(fromTile) then Some(fromTile) else None;
    var base := gm.tiles.aiWeight[fromTile];
    var ts := gm.GetTilesWithinDistance(fromTile, unit.AttackRange(), false);
    inRange := ts;
    var objects := gm.tiles.objects;
    ghost var cs := Candidates(objects, ts, mgr, unit, base);
    var maxWeight, heaviestAtk := Scan(objects, ts, mgr, unit, base);
    a := AIAction(unit, moveToTile, heaviestAtk, maxWeight);
    HeaviestIsEnemy(objects, ts, mgr, unit, base);
  }

  /**
   * The last lines of weightAIUnitMove: sameValueLastIndex runs to the last
   * position of the heaviest run of sorted, and the pick is the action at
   * floor(r * sameValueLastIndex).
   */
  method PickHeaviest(sorted: seq<AIAction>, r: real) returns (a: AIAction)
    requires sorted != [] && 0.0 <= r < 1.0
    ensures LastTied(sorted) < |sorted| && 0 <= PickIndex(r, LastTied(sorted)) <= LastTied(sorted)
    ensures a == sorted[PickIndex(r, LastTied(sorted))]
  {
    var sameValueLastIndex := 0;
    var i := 1;
    while i < |sorted|
      invariant 1 <= i <= |sorted| && sameValueLastIndex == i - 1
      invariant TiedRunEnd(sorted, i) == LastTied(sorted)
    {
      if Less(sorted[i].weight, sorted[0].weight) {
        break;
      }
      sameValueLastIndex := i;
      i := i + 1;
    }
    PickBelow(r, sameValueLastIndex);
    var index := PickIndex(r, sameValueLastIndex);
    a := sorted[index];
  }

  /** weightAIUnitMove after the actions are built: sort them heaviest first and pick among the heaviest. */
  method SortAndPick(unitActions: seq<AIAction>, r: real) returns (a: AIAction)
    requires unitActions != [] && 0.0 <= r < 1.0
    ensures a == PickOf(unitActions, r)
    ensures PickedAmong(a, unitActions, r)
  {
    var sortedActions := SortByWeight(unitActions);
    SortByWeightSorted(unitActions);
    a := PickHeaviest(sortedActions, r);
    PickOfHeaviest(unitActions, r);
  }

  /** Ordering a plan of ready actions gives ready actions. */
  lemma OrderedReady(plan: seq<AIAction>, count: nat)
    requires forall a :: a in plan ==> ActionReady(a, count)
    ensures forall j :: 0 <= j < |SortActions(plan)| ==> ActionReady(SortActions(plan)[j], count)
  {
    SortActionsOrder(plan);
    forall j | 0 <= j < |SortActions(plan)| ensures ActionReady(SortActions(plan)[j], count) {
      assert SortActions(plan)[j] in multiset(plan);
    }
  }

  class AIController {
    const aiFaction: Faction
    const playerFaction: Faction
    /** The actions of the current AI turn, in the order they are performed; None outside the AI's turn. */
    var actionsList: Option<seq<AIAction>>
    var currentActionIndex: int

    constructor (aiFaction: Faction, playerFaction: Faction)
      ensures this.aiFaction == aiFaction && this.playerFaction == playerFaction
      ensures actionsList == None && currentActionIndex == 0
    {
      this.aiFaction := aiFaction;
      this.playerFaction := playerFaction;
      actionsList := None;
      currentActionIndex := 0;
    }

    /** The units of the current action list. */
    ghost function ListUnits(): set<Unit>
      reads this
    {
      if actionsList.Some? then set a | a in actionsList.value :: a.unit else {}
    }

    /** The standing assumptions of the controller: a valid board whose occupants know their tile, a bonus table, a random stream, ready actions. */
    ghost predicate Standing(gm: GridManager, mgr: AttackManager, rng: RandomSource)
      reads this, gm, gm.grid, gm.tiles, mgr, set o | o in gm.tiles.objects && o.Some? :: o.value
      reads aiFaction, (set u | u in aiFaction.units), ListUnits()
    {
      && gm.Valid() && mgr.damageBonus.Some? && rng.Valid() && Placed(gm.tiles.objects)
      && (forall u :: u in aiFaction.units ==> UnitReady(u, gm.tiles.Count()))
      && (actionsList.Some? ==>
            forall j :: 0 <= j < |actionsList.value| ==> ActionReady(actionsList.value[j], gm.tiles.Count()))
    }

    /**
     * The message m is the one the current step sends: a move of the current
     * action's unit to its free target tile, its attack on its target, or,
     * once every action was performed, a rest for the first AI unit of
     * highest HP.
     */
    ghost predicate Dispatched(gm: GridManager, mgr: AttackManager, m: Message)
      reads this, gm.tiles, mgr, aiFaction, (set u | u in aiFaction.units), ListUnits()
      reads if m.AttackMessage? then {m.atkInstance.target} else {}
      requires actionsList.Some?
    {
      var list, i := actionsList.value, currentActionIndex;
      match m
      case MoveUnitMessage(fromTile, toTile) =>
        && 0 <= i < |list| && list[i].moveToTile == Some(toTile) && fromTile == list[i].unit.tile
        && toTile < |gm.tiles.objects| && gm.tiles.objects[toTile].None?
      case AttackMessage(srcUnit, instance) =>
        && 0 <= i < |list| && srcUnit == list[i].unit && list[i].atkUnit == Some(instance.target)
        && mgr.damageBonus.Some? && instance == AttackFor(mgr, srcUnit, instance.target)
      case RestMessage(unit) =>
        i >= |list| && FirstHighestHP(aiFaction.units, unit)
    }

    /** resetWeights: every tile's AI weight becomes 0. */
    method ResetWeights(gm: GridManager)
      requires gm.Valid()
      modifies gm.tiles
      ensures gm.Valid()
      ensures gm.tiles.objects == old(gm.tiles.objects) && gm.tiles.neighbourList == old(gm.tiles.neighbourList)
      ensures forall k :: 0 <= k < gm.tiles.Count() ==> gm.tiles.aiWeight[k] == 0
    {
      for i := 0 to gm.tiles.Count()
        invariant gm.Valid()
        invariant gm.tiles.objects == old(gm.tiles.objects) && gm.tiles.neighbourList == old(gm.tiles.neighbourList)
        invariant forall k :: 0 <= k < i ==> gm.tiles.aiWeight[k] == 0
      {
        gm.tiles.SetAiWeight(i, 0);
      }
    }

    /** weightPlayerUnitAtkTile: every tile in unit's attack range from fromTile loses one point of weight. */
    method WeightPlayerUnitAtkTile(gm: GridManager, fromTile: TileId, unit: Unit) returns (ghost hit: seq<TileId>)
      requires gm.Valid() && fromTile < gm.tiles.Count()
      modifies gm.tiles
      ensures gm.Valid()
      ensures gm.tiles.objects == old(gm.tiles.objects) && gm.tiles.neighbourList == old(gm.tiles.neighbourList)
      ensures RangeResult(gm.tiles.objects, gm.tiles.neighbourList, fromTile, hit, false, unit.AttackRange())
      ensures InRange(gm.tiles.objects, gm.tiles.neighbourList, fromTile, unit.AttackRange(), false, hit)
      ensures Lost(old(gm.tiles.aiWeight), gm.tiles.aiWeight, hit)
    {
      var ts := gm.GetTilesWithinDistance(fromTile, unit.AttackRange(), false);
      hit := ts;
      LosePerTile(gm.tiles, ts);
    }

    /** The inner loop of weightPlayerAtkTile: unit's attack range from each of moveTiles loses one point per tile. */
    method WeightUnitThreats(gm: GridManager, unit: Unit, moveTiles: seq<TileId>) returns (ghost unitHits: seq<seq<TileId>>)
      requires gm.Valid() && forall m :: m in moveTiles ==> m < |gm.tiles.objects|
      modifies gm.tiles
      ensures gm.Valid()
      ensures gm.tiles.objects == old(gm.tiles.objects) && gm.tiles.neighbourList == old(gm.tiles.neighbourList)
      ensures HitLists(gm.tiles.objects, gm.tiles.neighbourList, moveTiles, unit.AttackRange(), unitHits)
      ensures Lost(old(gm.tiles.aiWeight), gm.tiles.aiWeight, Concat(unitHits))
    {
      unitHits := [];
      ghost var w0 := gm.tiles.aiWeight;
      LostNone(w0);
      ghost var objects, nbrs := gm.tiles.objects, gm.tiles.neighbourList;
      var atk := unit.AttackRange();
      for j := 0 to |moveTiles|
        invariant gm.Valid()
        invariant gm.tiles.objects == objects && gm.tiles.neighbourList == nbrs
        invariant HitLists(objects, nbrs, moveTiles[..j], atk, unitHits)
        invariant Lost(w0, gm.tiles.aiWeight, Concat(unitHits))
      {
        assert moveTiles[j] in moveTiles;
        ghost var w1 := gm.tiles.aiWeight;
        var hit := WeightPlayerUnitAtkTile(gm, moveTiles[j], unit);
        LostTrans(w0, w1, gm.tiles.aiWeight, Concat(unitHits), hit);
        ConcatSnoc(unitHits, hit);
        HitListsSnoc(objects, nbrs, moveTiles, atk, unitHits, j, hit);
        unitHits := unitHits + [hit];
      }
      assert moveTiles[..|moveTiles|] == moveTiles;
    }

    /** One player unit's share of weightPlayerAtkTile: its walkable range, then its attack range from each of those tiles. */
    method WeightUnitMoves(gm: GridManager, unit: Unit, fullMoveRange: int)
      returns (moveTiles: seq<TileId>, ghost unitHits: seq<seq<TileId>>)
      requires gm.Valid() && unit.tile.Some? && unit.tile.value < gm.tiles.Count()
      modifies gm.tiles
      ensures gm.Valid()
      ensures gm.tiles.objects == old(gm.tiles.objects) && gm.tiles.neighbourList == old(gm.tiles.neighbourList)
      ensures InRange(gm.tiles.objects, gm.tiles.neighbourList, unit.tile.value, fullMoveRange, true, moveTiles)
      ensures HitLists(gm.tiles.objects, gm.tiles.neighbourList, moveTiles, unit.AttackRange(), unitHits)
      ensures Lost(old(gm.tiles.aiWeight), gm.tiles.aiWeight, Concat(unitHits))
    {
      moveTiles := gm.GetTilesWithinDistance(unit.tile.value, fullMoveRange, true);
      unitHits := WeightUnitThreats(gm, unit, moveTiles);
    }

    /**
     * weightPlayerAtkTile: for every player unit and every tile it could move
     * to (fullMoveRanges[i] being the i-th unit's getFullMoveRange), the tiles
     * it could attack from there lose one point each; a tile loses one point
     * per (unit, move tile) pair that threatens it.
     */
    method WeightPlayerAtkTile(gm: GridManager, fullMoveRanges: seq<int>)
      returns (ghost threats: seq<TileId>, ghost moves: seq<seq<TileId>>, ghost hits: seq<seq<seq<TileId>>>)
      requires gm.Valid() && |fullMoveRanges| == |playerFaction.units|
      requires forall u :: u in playerFaction.units ==> u.tile.Some? && u.tile.value < gm.tiles.Count()
      modifies gm.tiles
      ensures gm.Valid()
      ensures gm.tiles.objects == old(gm.tiles.objects) && gm.tiles.neighbourList == old(gm.tiles.neighbourList)
      ensures PlayerReach(gm.tiles.objects, gm.tiles.neighbourList, playerFaction.units, fullMoveRanges, moves, hits)
      ensures threats == Threats(hits)
      ensures Lost(old(gm.tiles.aiWeight), gm.tiles.aiWeight, threats)
    {
      threats, moves, hits := [], [], [];
      ghost var w0 := gm.tiles.aiWeight;
      LostNone(w0);
      ghost var objects, nbrs := gm.tiles.objects, gm.tiles.neighbourList;
      var units := playerFaction.GetUnits();
      PlayerReachIs(objects, nbrs, units[..0], fullMoveRanges[..0], moves, hits);
      for i := 0 to |units|
        invariant gm.Valid()
        invariant gm.tiles.objects == objects && gm.tiles.neighbourList == nbrs
        invariant PlayerReach(objects, nbrs, units[..i], fullMoveRanges[..i], moves, hits)
        invariant threats == Threats(hits)
        invariant Lost(w0, gm.tiles.aiWeight, threats)
      {
        var unit := units[i];
        assert unit in playerFaction.units;
        ghost var w1 := gm.tiles.aiWeight;
        var moveTiles, unitHits := WeightUnitMoves(gm, unit, fullMoveRanges[i]);
        LostTrans(w0, w1, gm.tiles.aiWeight, threats, Concat(unitHits));
        threats := threats + Concat(unitHits);
        PlayerReachSnoc(objects, nbrs, units, fullMoveRanges, moves, hits, i, moveTiles, unitHits);
        ThreatsSnoc(hits, unitHits);
        moves, hits := moves + [moveTiles], hits + [unitHits];
      }
      assert units[..|units|] == units && fullMoveRanges[..|units|] == fullMoveRanges;
    }

    /**
     * weightAIUnitMove: one action per tile the unit can reach (its own tile
     * last), sorted heaviest first; the pick is position
     * floor(random * lastTied), lastTied being the last position of the
     * heaviest run, so it has maximal weight but is never the last of a run
     * of two or more.
     */
    method WeightAIUnitMove(gm: GridManager, mgr: AttackManager, rng: RandomSource, unit: Unit)
      returns (a: AIAction)
      requires gm.Valid() && UnitReady(unit, gm.tiles.Count())
      requires mgr.damageBonus.Some? && rng.Valid()
      modifies gm.tiles, rng
      ensures BoardKept(gm)
      ensures rng.used == old(rng.used) + 1
      ensures Proposal(a, unit, gm.tiles.objects, gm.tiles.neighbourList)
      ensures Picked(a, unit, rng.values(old(rng.used)), gm.tiles.objects, gm.tiles.neighbourList, gm.tiles.aiWeight, mgr)
    {
      var r := rng.Next();
      var b := WeighAndPick(gm, mgr, unit, r);
      a := b;
    }

    /**
     * weightAIUnitMove with its random draw r as a parameter; the draw does not
     * depend on the board, so taking it first leaves the result unchanged.
     */
    method WeighAndPick(gm: GridManager, mgr: AttackManager, unit: Unit, r: real) returns (a: AIAction)
      requires gm.Valid() && UnitReady(unit, gm.tiles.Count())
      requires mgr.damageBonus.Some? && 0.0 <= r < 1.0
      modifies gm.tiles
      ensures BoardKept(gm)
      ensures Proposal(a, unit, gm.tiles.objects, gm.tiles.neighbourList)
      ensures Picked(a, unit, r, gm.tiles.objects, gm.tiles.neighbourList, gm.tiles.aiWeight, mgr)
    {
      var unitActions, reach := Weigh(gm, mgr, unit);
      a := SortAndPick(unitActions, r);
      PickedFrom(unit, r, reach, unitActions, gm.tiles.objects, gm.tiles.neighbourList, gm.tiles.aiWeight, mgr);
    }

    /** The first lines of weightAIUnitMove: the action scored from each tile the unit can reach, in order. */
    method Weigh(gm: GridManager, mgr: AttackManager, unit: Unit) returns (actions: seq<AIAction>, ghost reach: seq<TileId>)
      requires gm.Valid() && UnitReady(unit, gm.tiles.Count()) && mgr.damageBonus.Some?
      modifies gm.tiles
      ensures BoardKept(gm)
      ensures Weighed(actions, unit, reach, gm.tiles.objects, gm.tiles.neighbourList, gm.tiles.aiWeight, mgr)
      ensures actions != [] && forall b :: b in actions ==> Proposal(b, unit, gm.tiles.objects, gm.tiles.neighbourList)
    {
      var tiles := Reachable(gm, unit);
      reach := tiles;
      actions := BuildActions(gm, mgr, unit, tiles);
      WeighedIs(actions, unit, reach, gm.tiles.objects, gm.tiles.neighbourList, gm.tiles.aiWeight, mgr);
    }

    /** The tiles weightAIUnitMove weighs: the free tiles within the unit's move range, then its own tile. */
    method Reachable(gm: GridManager, unit: Unit) returns (reach: seq<TileId>)
      requires gm.Valid() && UnitReady(unit, gm.tiles.Count())
      modifies gm.tiles
      ensures BoardKept(gm)
      ensures ReachOf(reach, unit, gm.tiles.objects, gm.tiles.neighbourList) && Distinct(reach)
      ensures reach != [] && reach[|reach| - 1] == unit.tile.value
      ensures forall j :: 0 <= j < |reach| ==> reach[j] < gm.tiles.Count()
      ensures forall j :: 0 <= j < |reach| && Some(reach[j]) != unit.tile ==>
                && gm.tiles.objects[reach[j]].None?
                && WithinSteps(gm.tiles.objects, gm.tiles.neighbourList, unit.tile.value, reach[j], true, unit.MoveRange())
    {
      var walkRange := gm.GetTilesWithinDistance(unit.tile.value, unit.MoveRange(), true);
      reach := walkRange + [unit.tile.value];
      forall j | 0 <= j < |reach| && Some(reach[j]) != unit.tile
        ensures reach[j] < gm.tiles.Count() && gm.tiles.objects[reach[j]].None?
        ensures WithinSteps(gm.tiles.objects, gm.tiles.neighbourList, unit.tile.value, reach[j], true, unit.MoveRange())
      {
        assert j < |walkRange| && reach[j] == walkRange[j];
      }
      assert reach[..|reach| - 1] == walkRange;
    }

    /** One step of that forEach: the action from a tile the unit may stay on or move to is a proposal. */
    method ProposeFrom(gm: GridManager, mgr: AttackManager, unit: Unit, fromTile: TileId) returns (a: AIAction)
      requires gm.Valid() && UnitReady(unit, gm.tiles.Count()) && mgr.damageBonus.Some?
      requires fromTile < gm.tiles.Count()
      requires Some(fromTile) != unit.tile ==>
                 && gm.tiles.objects[fromTile].None?
                 && WithinSteps(gm.tiles.objects, gm.tiles.neighbourList, unit.tile.value, fromTile, true, unit.MoveRange())
      modifies gm.tiles
      ensures BoardKept(gm)
      ensures Scored(a, unit, fromTile, gm.tiles.objects, gm.tiles.neighbourList, gm.tiles.aiWeight, mgr)
      ensures Proposal(a, unit, gm.tiles.objects, gm.tiles.neighbourList)
    {
      var b, inRange := NewAIAction(gm, mgr, unit, fromTile);
      a := b;
      ScoredIs(a, unit, fromTile, gm.tiles.objects, gm.tiles.neighbourList, gm.tiles.aiWeight, mgr);
    }

    /** The forEach of weightAIUnitMove: the action of each reachable tile, in order. */
    method BuildActions(gm: GridManager, mgr: AttackManager, unit: Unit, reach: seq<TileId>)
      returns (unitActions: seq<AIAction>)
      requires gm.Valid() && UnitReady(unit, gm.tiles.Count()) && mgr.damageBonus.Some?
      requires forall j :: 0 <= j < |reach| ==> reach[j] < gm.tiles.Count()
      requires forall j :: 0 <= j < |reach| && Some(reach[j]) != unit.tile ==>
                 && gm.tiles.objects[reach[j]].None?
                 && WithinSteps(gm.tiles.objects, gm.tiles.neighbourList, unit.tile.value, reach[j], true, unit.MoveRange())
      modifies gm.tiles
      ensures BoardKept(gm)
      ensures |unitActions| == |reach|
      ensures ScoredAll(unitActions, unit, reach, gm.tiles.objects, gm.tiles.neighbourList, gm.tiles.aiWeight, mgr)
      ensures forall b :: b in unitActions ==> Proposal(b, unit, gm.tiles.objects, gm.tiles.neighbourList)
    {
      ghost var objects, nbrs, weights := gm.tiles.objects, gm.tiles.neighbourList, gm.tiles.aiWeight;
      unitActions := [];
      for i := 0 to |reach|
        invariant BoardKept(gm)
        invariant ScoredAll(unitActions, unit, reach[..i], objects, nbrs, weights, mgr)
      {
        var action := ProposeFrom(gm, mgr, unit, reach[i]);
        ScoredAllSnoc(unitActions, action, unit, reach, i, objects, nbrs, weights, mgr);
        unitActions := unitActions + [action];
      }
      assert reach[..|reach|] == reach;
      ScoredAllIs(unitActions, unit, reach, objects, nbrs, weights, mgr);
      forall b | b in unitActions ensures Proposal(b, unit, objects, nbrs) {
        var j :| 0 <= j < |unitActions| && unitActions[j] == b;
        ScoredIsProposal(b, unit, reach[j], objects, nbrs, weights, mgr);
      }
    }

    /** weightAIMove: one picked action per AI unit, in roster order. */
    method WeightAIMove(gm: GridManager, mgr: AttackManager, rng: RandomSource) returns (ret: seq<AIAction>)
      requires gm.Valid() && mgr.damageBonus.Some? && rng.Valid()
      requires forall u :: u in aiFaction.units ==> UnitReady(u, gm.tiles.Count())
      modifies gm.tiles, rng
      ensures BoardKept(gm)
      ensures rng.used == old(rng.used) + |aiFaction.units|
      ensures AllPicked(ret, aiFaction.units, rng.values, old(rng.used), gm.tiles.objects, gm.tiles.neighbourList,
                        gm.tiles.aiWeight, mgr)
    {
      ret := [];
      var units := aiFaction.GetUnits();
      AllPickedEmpty(units[..0], rng.values, rng.used, gm.tiles.objects, gm.tiles.neighbourList, gm.tiles.aiWeight, mgr);
      for i := 0 to |units|
        invariant BoardKept(gm)
        invariant rng.used == old(rng.used) + i
        invariant AllPicked(ret, units[..i], rng.values, old(rng.used), gm.tiles.objects, gm.tiles.neighbourList,
                            gm.tiles.aiWeight, mgr)
      {
        assert units[i] in aiFaction.units;
        // the hidden AllPicked is carried across the call by its reads frame
        ghost var picked := AllPickedAtDepth(0, ret, units[..i], rng.values, old(rng.used), gm.tiles.objects,
                                             gm.tiles.neighbourList, gm.tiles.aiWeight, mgr);
        var action := WeightAIUnitMove(gm, mgr, rng, units[i]);
        assert picked == AllPickedAtDepth(0, ret, units[..i], rng.values, old(rng.used), gm.tiles.objects,
                                          gm.tiles.neighbourList, gm.tiles.aiWeight, mgr);
        AllPickedSnoc(ret, action, units, i, rng.values, old(rng.used), gm.tiles.objects, gm.tiles.neighbourList,
                      gm.tiles.aiWeight, mgr);
        ret := ret + [action];
      }
      assert units[..|units|] == units;
    }
  
    /** The recomputation in performAction: the current action is replaced by a fresh weightAIUnitMove of its unit. */
    method Reweigh(gm: GridManager, mgr: AttackManager, rng: RandomSource)
      requires Standing(gm, mgr, rng) && actionsList.Some? && 0 <= currentActionIndex < |actionsList.value|
      modifies this, gm.tiles, rng
      ensures Standing(gm, mgr, rng) && BoardKept(gm)
      ensures currentActionIndex == old(currentActionIndex) && actionsList.Some?
      ensures |actionsList.value| == |old(actionsList).value|
      ensures forall j :: 0 <= j < |actionsList.value| && j != currentActionIndex ==>
                actionsList.value[j] == old(actionsList).value[j]
      ensures actionsList.value[currentActionIndex].unit == old(actionsList).value[currentActionIndex].unit
      ensures Settled(actionsList.value[currentActionIndex], gm.tiles.objects)
      ensures rng.used == old(rng.used) + 1
      ensures Picked(actionsList.value[currentActionIndex], actionsList.value[currentActionIndex].unit,
                     rng.values(old(rng.used)), gm.tiles.objects, gm.tiles.neighbourList, gm.tiles.aiWeight, mgr)
      ensures Proposal(actionsList.value[currentActionIndex], actionsList.value[currentActionIndex].unit,
                       gm.tiles.objects, gm.tiles.neighbourList)
    {
      var unit := actionsList.value[currentActionIndex].unit;
      var a := WeightAIUnitMove(gm, mgr, rng, unit);
      actionsList := Some(actionsList.value[currentActionIndex := a]);
    }

    /**
     * performAction: move to the action's tile when it is free, attack its
     * target when that still stands on a tile, or go on to the next action
     * when it does neither; a move to an occupied tile or an attack on a unit
     * off the board is recomputed and performed again. A recomputed action
     * never needs recomputing, so exactly one message is sent. (The source
     * logs action.toString() first. That reads the target's tile, so for a
     * target off the board the source fails before it gets to recompute.)
     */
    method PerformAction(gm: GridManager, mgr: AttackManager, msgs: MessageManager, rng: RandomSource, ghost retried: bool)
      requires Standing(gm, mgr, rng) && actionsList.Some? && 0 <= currentActionIndex < |actionsList.value|
      requires retried ==> Settled(actionsList.value[currentActionIndex], gm.tiles.objects)
      modifies this, gm.tiles, msgs, rng
      decreases |actionsList.value| - currentActionIndex, if retried then 1 else 3
      ensures Standing(gm, mgr, rng) && BoardKept(gm)
      ensures actionsList.Some? && |actionsList.value| == |old(actionsList).value|
      ensures old(currentActionIndex) <= currentActionIndex <= |actionsList.value|
      ensures Repicked(actionsList.value, old(actionsList).value, old(currentActionIndex), currentActionIndex,
                       gm.tiles.objects, gm.tiles.neighbourList, gm.tiles.aiWeight, mgr)
      ensures forall j :: old(currentActionIndex) <= j < currentActionIndex ==>
                actionsList.value[j].moveToTile.None? && actionsList.value[j].atkUnit.None?
      ensures |msgs.sent| == |old(msgs.sent)| + 1 && msgs.sent[..|old(msgs.sent)|] == old(msgs.sent)
      ensures Dispatched(gm, mgr, msgs.sent[|old(msgs.sent)|])
      ensures msgs.sent[|old(msgs.sent)|].AttackMessage? ==> msgs.sent[|old(msgs.sent)|].atkInstance.target.tile.Some?
    {
      var action := actionsList.value[currentActionIndex];
      if action.moveToTile.Some? {
        if gm.tiles.objects[action.moveToTile.value].Some? {
          Retry(gm, mgr, msgs, rng);
        } else {
          msgs.Send(MoveUnitMessage(action.unit.tile, action.moveToTile.value));
        }
      } else if action.atkUnit.Some? {
        if action.atkUnit.value.tile.None? {
          Retry(gm, mgr, msgs, rng);
        } else {
          msgs.Send(AttackMessage(action.unit, AttackFor(mgr, action.unit, action.atkUnit.value)));
        }
      } else {
        StartNextAction(gm, mgr, msgs, rng);
      }
    }

    /**
     * The recomputing branch of performAction: the current action is replaced
     * by a fresh weightAIUnitMove of its unit, which is then performed; its
     * contract is performAction's.
     */
    method Retry(gm: GridManager, mgr: AttackManager, msgs: MessageManager, rng: RandomSource)
      requires Standing(gm, mgr, rng) && actionsList.Some? && 0 <= currentActionIndex < |actionsList.value|
      modifies this, gm.tiles, msgs, rng
      decreases |actionsList.value| - currentActionIndex, 2
      ensures Standing(gm, mgr, rng) && BoardKept(gm)
      ensures actionsList.Some? && |actionsList.value| == |old(actionsList).value|
      ensures old(currentActionIndex) <= currentActionIndex <= |actionsList.value|
      ensures Repicked(actionsList.value, old(actionsList).value, old(currentActionIndex), currentActionIndex,
                       gm.tiles.objects, gm.tiles.neighbourList, gm.tiles.aiWeight, mgr)
      ensures forall j :: old(currentActionIndex) <= j < currentActionIndex ==>
                actionsList.value[j].moveToTile.None? && actionsList.value[j].atkUnit.None?
      ensures |msgs.sent| == |old(msgs.sent)| + 1 && msgs.sent[..|old(msgs.sent)|] == old(msgs.sent)
      ensures Dispatched(gm, mgr, msgs.sent[|old(msgs.sent)|])
      ensures msgs.sent[|old(msgs.sent)|].AttackMessage? ==> msgs.sent[|old(msgs.sent)|].atkInstance.target.tile.Some?
    {
      ghost var list0, draw := actionsList.value, rng.values(rng.used);
      Reweigh(gm, mgr, rng);
      ghost var list1, i := actionsList.value, currentActionIndex;
      ghost var objects, nbrs, w := gm.tiles.objects, gm.tiles.neighbourList, gm.tiles.aiWeight;
      RepickedOne(list1, list0, i, draw, objects, nbrs, w, mgr);
      PerformAction(gm, mgr, msgs, rng, true);
      RepickedTrans(actionsList.value, list1, list0, i, i, i, currentActionIndex,
                    gm.tiles.objects, gm.tiles.neighbourList, gm.tiles.aiWeight, mgr);
    }

    /** startNextAction: advance; past the last action, send a rest for the first AI unit of highest HP. */
    method StartNextAction(gm: GridManager, mgr: AttackManager, msgs: MessageManager, rng: RandomSource)
      requires Standing(gm, mgr, rng) && actionsList.Some? && 0 <= currentActionIndex < |actionsList.value|
      modifies this, gm.tiles, msgs, rng
      decreases |actionsList.value| - currentActionIndex, 0
      ensures Standing(gm, mgr, rng) && BoardKept(gm)
      ensures actionsList.Some? && |actionsList.value| == |old(actionsList).value|
      ensures old(currentActionIndex) < currentActionIndex <= |actionsList.value|
      ensures Repicked(actionsList.value, old(actionsList).value, old(currentActionIndex) + 1, currentActionIndex,
                       gm.tiles.objects, gm.tiles.neighbourList, gm.tiles.aiWeight, mgr)
      ensures forall j :: old(currentActionIndex) < j < currentActionIndex ==>
                actionsList.value[j].moveToTile.None? && actionsList.value[j].atkUnit.None?
      ensures |msgs.sent| == |old(msgs.sent)| + 1 && msgs.sent[..|old(msgs.sent)|] == old(msgs.sent)
      ensures Dispatched(gm, mgr, msgs.sent[|old(msgs.sent)|])
      ensures msgs.sent[|old(msgs.sent)|].AttackMessage? ==> msgs.sent[|old(msgs.sent)|].atkInstance.target.tile.Some?
    {
      currentActionIndex := currentActionIndex + 1;
      if currentActionIndex >= |actionsList.value| {
        var lessHPUnit := HighestHP(aiFaction.GetUnits());
        msgs.Send(RestMessage(lessHPUnit));
      } else {
        PerformAction(gm, mgr, msgs, rng, false);
      }
    }
  
    /**
     * onMoveEnd: when the current action belongs to unit, its attack (if it
     * has one) is sent, or else the next action is started; otherwise nothing
     * happens. The source reads the current action, so the index must lie
     * inside a present list.
     */
    method OnMoveEnd(unit: Unit, tile: Option<TileId>, gm: GridManager, mgr: AttackManager, msgs: MessageManager,
                     rng: RandomSource)
      requires Standing(gm, mgr, rng)
      requires actionsList.Some? ==> 0 <= currentActionIndex < |actionsList.value|
      modifies this, gm.tiles, msgs, rng
      ensures Standing(gm, mgr, rng) && BoardKept(gm)
      ensures !(old(actionsList).Some? && old(actionsList).value[old(currentActionIndex)].unit == unit) ==>
                && msgs.sent == old(msgs.sent) && actionsList == old(actionsList)
                && currentActionIndex == old(currentActionIndex)
      ensures old(actionsList).Some? && old(actionsList).value[old(currentActionIndex)].unit == unit ==>
                && actionsList.Some? && old(currentActionIndex) <= currentActionIndex
                && |msgs.sent| == |old(msgs.sent)| + 1 && msgs.sent[..|old(msgs.sent)|] == old(msgs.sent)
                && Dispatched(gm, mgr, msgs.sent[|old(msgs.sent)|])
      ensures old(actionsList).Some? && old(actionsList).value[old(currentActionIndex)].unit == unit
              && old(actionsList).value[old(currentActionIndex)].atkUnit.Some? ==>
                && actionsList == old(actionsList) && currentActionIndex == old(currentActionIndex)
                && msgs.sent == old(msgs.sent) + [AttackMessage(unit, AttackFor(mgr, unit,
                                                    old(actionsList).value[old(currentActionIndex)].atkUnit.value))]
      ensures old(actionsList).Some? && old(actionsList).value[old(currentActionIndex)].unit == unit
              && old(actionsList).value[old(currentActionIndex)].atkUnit.None? ==>
                && old(currentActionIndex) < currentActionIndex <= |actionsList.value|
                && Repicked(actionsList.value, old(actionsList).value, old(currentActionIndex) + 1, currentActionIndex,
                            gm.tiles.objects, gm.tiles.neighbourList, gm.tiles.aiWeight, mgr)
                && forall j :: old(currentActionIndex) < j < currentActionIndex ==>
                     actionsList.value[j].moveToTile.None? && actionsList.value[j].atkUnit.None?
    {
      if actionsList.Some? && actionsList.value[currentActionIndex].unit == unit {
        var action := actionsList.value[currentActionIndex];
        if action.atkUnit.Some? {
          msgs.Send(AttackMessage(action.unit, AttackFor(mgr, action.unit, action.atkUnit.value)));
        } else {
          StartNextAction(gm, mgr, msgs, rng);
        }
      }
    }

    /**
     * The planning half of onTurnChanged: resetWeights, weightPlayerAtkTile,
     * then weightAIMove; every tile's weight ends as minus the number of
     * threats on it, and every planned action is ready to perform.
     */
    method Plan(gm: GridManager, mgr: AttackManager, rng: RandomSource, fullMoveRanges: seq<int>)
      returns (planned: seq<AIAction>, ghost threats: seq<TileId>)
      requires gm.Valid() && mgr.damageBonus.Some? && rng.Valid()
      requires forall u :: u in aiFaction.units ==> UnitReady(u, gm.tiles.Count())
      requires |fullMoveRanges| == |playerFaction.units|
      requires forall u :: u in playerFaction.units ==> u.tile.Some? && u.tile.value < gm.tiles.Count()
      modifies gm.tiles, rng
      ensures gm.Valid()
      ensures gm.tiles.objects == old(gm.tiles.objects) && gm.tiles.neighbourList == old(gm.tiles.neighbourList)
      ensures ThreatsOf(gm.tiles.objects, gm.tiles.neighbourList, playerFaction.units, fullMoveRanges, threats)
      ensures forall k :: 0 <= k < |gm.tiles.aiWeight| ==> gm.tiles.aiWeight[k] + multiset(threats)[k] == 0
      ensures AllPicked(planned, aiFaction.units, rng.values, old(rng.used), gm.tiles.objects, gm.tiles.neighbourList,
                        gm.tiles.aiWeight, mgr)
      ensures forall a :: a in planned ==> ActionReady(a, gm.tiles.Count())
    {
      ResetWeights(gm);
      ghost var moves, hits;
      ghost var w0 := gm.tiles.aiWeight;
      threats, moves, hits := WeightPlayerAtkTile(gm, fullMoveRanges);
      LostIs(w0, gm.tiles.aiWeight, threats);
      planned := WeightAIMove(gm, mgr, rng);
      ThreatsIntro(gm.tiles.objects, gm.tiles.neighbourList, playerFaction.units, fullMoveRanges, moves, hits);
      AllPickedAt(planned, aiFaction.units, rng.values, old(rng.used), gm.tiles.objects, gm.tiles.neighbourList,
                  gm.tiles.aiWeight, mgr);
      forall a | a in planned ensures ActionReady(a, gm.tiles.Count()) {
        var m :| 0 <= m < |planned| && planned[m] == a;
        assert aiFaction.units[m] in aiFaction.units;
      }
    }

    /** The AI's turn: plan, order the plan with SortActions and perform its first action. */
    method StartTurn(gm: GridManager, mgr: AttackManager, msgs: MessageManager, rng: RandomSource,
                     fullMoveRanges: seq<int>)
      returns (planned: seq<AIAction>, ghost threats: seq<TileId>)
      requires Standing(gm, mgr, rng) && actionsList == None
      requires aiFaction.units != [] && |fullMoveRanges| == |playerFaction.units|
      requires forall u :: u in playerFaction.units ==> u.tile.Some? && u.tile.value < gm.tiles.Count()
      modifies this, gm.tiles, msgs, rng
      ensures Standing(gm, mgr, rng)
      ensures gm.tiles.objects == old(gm.tiles.objects) && gm.tiles.neighbourList == old(gm.tiles.neighbourList)
      ensures AllPicked(planned, aiFaction.units, rng.values, old(rng.used), gm.tiles.objects, gm.tiles.neighbourList,
                        gm.tiles.aiWeight, mgr)
      ensures ThreatsOf(gm.tiles.objects, gm.tiles.neighbourList, playerFaction.units, fullMoveRanges, threats)
      ensures forall k :: 0 <= k < |gm.tiles.aiWeight| ==> gm.tiles.aiWeight[k] + multiset(threats)[k] == 0
      ensures actionsList.Some? && |actionsList.value| == |planned|
      ensures Repicked(actionsList.value, SortActions(planned), 0, currentActionIndex,
                       gm.tiles.objects, gm.tiles.neighbourList, gm.tiles.aiWeight, mgr)
      ensures forall j :: 0 <= j && currentActionIndex < j < |planned| ==> actionsList.value[j] == SortActions(planned)[j]
      ensures forall j :: 0 <= j < currentActionIndex && j < |planned| ==>
                actionsList.value[j].moveToTile.None? && actionsList.value[j].atkUnit.None?
      ensures |msgs.sent| == |old(msgs.sent)| + 1 && msgs.sent[..|old(msgs.sent)|] == old(msgs.sent)
      ensures Dispatched(gm, mgr, msgs.sent[|old(msgs.sent)|])
    {
      planned, threats := Plan(gm, mgr, rng, fullMoveRanges);
      AllPickedAt(planned, aiFaction.units, rng.values, old(rng.used), gm.tiles.objects, gm.tiles.neighbourList,
                  gm.tiles.aiWeight, mgr);
      var ordered := SortActions(planned);
      OrderedReady(planned, gm.tiles.Count());
      Begin(gm, mgr, msgs, rng, ordered, planned, old(rng.used), fullMoveRanges, threats);
    }

    /**
     * The second half of startTurn: the ordered plan becomes the list and its
     * first action is performed; what was shown of the plan and of the
     * threats still holds afterwards.
     */
    method Begin(gm: GridManager, mgr: AttackManager, msgs: MessageManager, rng: RandomSource, ordered: seq<AIAction>,
                 ghost planned: seq<AIAction>, ghost from: nat, ghost fullMoveRanges: seq<int>, ghost threats: seq<TileId>)
      requires Standing(gm, mgr, rng) && ordered != []
      requires forall j :: 0 <= j < |ordered| ==> ActionReady(ordered[j], gm.tiles.Count())
      requires AllPicked(planned, aiFaction.units, rng.values, from, gm.tiles.objects, gm.tiles.neighbourList,
                         gm.tiles.aiWeight, mgr)
      requires ThreatsOf(gm.tiles.objects, gm.tiles.neighbourList, playerFaction.units, fullMoveRanges, threats)
      modifies this, gm.tiles, msgs, rng
      ensures Standing(gm, mgr, rng) && BoardKept(gm)
      ensures AllPicked(planned, aiFaction.units, rng.values, from, gm.tiles.objects, gm.tiles.neighbourList,
                        gm.tiles.aiWeight, mgr)
      ensures ThreatsOf(gm.tiles.objects, gm.tiles.neighbourList, playerFaction.units, fullMoveRanges, threats)
      ensures actionsList.Some? && |actionsList.value| == |ordered|
      ensures Repicked(actionsList.value, ordered, 0, currentActionIndex,
                       gm.tiles.objects, gm.tiles.neighbourList, gm.tiles.aiWeight, mgr)
      ensures forall j :: 0 <= j && currentActionIndex < j < |ordered| ==> actionsList.value[j] == ordered[j]
      ensures forall j :: 0 <= j < currentActionIndex && j < |ordered| ==>
                actionsList.value[j].moveToTile.None? && actionsList.value[j].atkUnit.None?
      ensures |msgs.sent| == |old(msgs.sent)| + 1 && msgs.sent[..|old(msgs.sent)|] == old(msgs.sent)
      ensures Dispatched(gm, mgr, msgs.sent[|old(msgs.sent)|])
    {
      // the hidden AllPicked and ThreatsOf are carried across the updates by their reads frames
      ghost var objects, nbrs, w := gm.tiles.objects, gm.tiles.neighbourList, gm.tiles.aiWeight;
      ghost var picked := AllPickedAtDepth(0, planned, aiFaction.units, rng.values, from, objects, nbrs, w, mgr);
      ghost var threatened := ThreatsAtDepth(0, objects, nbrs, playerFaction.units, fullMoveRanges, threats);
      actionsList := Some(ordered);
      currentActionIndex := 0;
      PerformAction(gm, mgr, msgs, rng, false);
      assert picked == AllPickedAtDepth(0, planned, aiFaction.units, rng.values, from, objects, nbrs, w, mgr);
      assert threatened == ThreatsAtDepth(0, objects, nbrs, playerFaction.units, fullMoveRanges, threats);
    }

    /**
     * onTurnChanged: outside the AI's turn the list is dropped. On the AI's
     * turn the weights are reset, lowered by the player's threats, one
     * action per AI unit is planned, the plan is ordered by SortActions and
     * its first action performed. fullMoveRanges[i] is the i-th player
     * unit's getFullMoveRange.
     */
    method OnTurnChanged(faction: Option<Faction>, gm: GridManager, mgr: AttackManager, msgs: MessageManager,
                         rng: RandomSource, fullMoveRanges: seq<int>)
      returns (ghost planned: seq<AIAction>, ghost threats: seq<TileId>)
      requires Standing(gm, mgr, rng)
      requires faction == Some(aiFaction) ==>
                 && aiFaction.units != [] && |fullMoveRanges| == |playerFaction.units|
                 && forall u :: u in playerFaction.units ==> u.tile.Some? && u.tile.value < gm.tiles.Count()
      modifies this, gm.tiles, msgs, rng
      ensures Standing(gm, mgr, rng)
      ensures gm.tiles.objects == old(gm.tiles.objects) && gm.tiles.neighbourList == old(gm.tiles.neighbourList)
      ensures faction != Some(aiFaction) ==>
                actionsList == None && msgs.sent == old(msgs.sent) && gm.tiles.aiWeight == old(gm.tiles.aiWeight)
      ensures faction == Some(aiFaction) ==>
                && AllPicked(planned, aiFaction.units, rng.values, old(rng.used), gm.tiles.objects,
                             gm.tiles.neighbourList, gm.tiles.aiWeight, mgr)
                && ThreatsOf(gm.tiles.objects, gm.tiles.neighbourList, playerFaction.units, fullMoveRanges, threats)
      ensures faction == Some(aiFaction) ==>
                && (forall k :: 0 <= k < |gm.tiles.aiWeight| ==> gm.tiles.aiWeight[k] + multiset(threats)[k] == 0)
                && actionsList.Some? && |actionsList.value| == |planned|
                && Repicked(actionsList.value, SortActions(planned), 0, currentActionIndex,
                            gm.tiles.objects, gm.tiles.neighbourList, gm.tiles.aiWeight, mgr)
                && (forall j :: 0 <= j && currentActionIndex < j < |planned| ==> actionsList.value[j] == SortActions(planned)[j])
                && (forall j :: 0 <= j < currentActionIndex && j < |planned| ==>
                      actionsList.value[j].moveToTile.None? && actionsList.value[j].atkUnit.None?)
                && |msgs.sent| == |old(msgs.sent)| + 1 && msgs.sent[..|old(msgs.sent)|] == old(msgs.sent)
                && Dispatched(gm, mgr, msgs.sent[|old(msgs.sent)|])
    {
      actionsList := None;
      planned, threats := [], [];
      if faction == Some(aiFaction) {
        planned, threats := StartTurn(gm, mgr, msgs, rng, fullMoveRanges);
      }
    }
  }
}
