/**
 * Units and factions: a unit's occupancy of the board, its move (with the
 * tween's completion as an explicit step), its attack sequence as a chain of
 * four states, and the faction rosters with their static registry.
 * Listener broadcasts (onMoveStart, onAttackStart, onHit, onDead) are
 * appended to an event log.
 */
module Units {
  import opened Options
  import opened Tiles
  import opened Turns
  import opened Attacks

  // ---------------------------------------------------------------------------
  // Roster list operations (Array.indexOf and Array.splice(start, 1))
  // ---------------------------------------------------------------------------

  /** Array.indexOf: the first position of x, or -1 when x is absent. */
  function IndexOf<T(==)>(xs: seq<T>, x: T): (i: int)
    ensures -1 <= i < |xs|
    ensures i == -1 <==> x !in xs
    ensures 0 <= i ==> xs[i] == x && x !in xs[..i]
  {
    if xs == [] then -1
    else if xs[0] == x then 0
    else
      var j := IndexOf(xs[1..], x);
      assert j >= 0 ==> xs[..j + 1] == [xs[0]] + xs[1..][..j];
      if j == -1 then -1 else j + 1
  }

  /** Array.splice(start, 1): a negative start counts from the end (clamped at 0); a start past the end removes nothing. */
  function SpliceOne<T>(xs: seq<T>, start: int): seq<T>
  {
    var s := if start >= 0 then start else if |xs| + start >= 0 then |xs| + start else 0;
    if s >= |xs| then xs else xs[..s] + xs[s + 1..]
  }

  /** Removing a present element drops exactly its first occurrence and keeps the rest in order. */
  lemma RemovePresent<T>(xs: seq<T>, x: T)
    requires x in xs
    ensures exists i :: 0 <= i < |xs| && xs[i] == x && x !in xs[..i]
                        && SpliceOne(xs, IndexOf(xs, x)) == xs[..i] + xs[i + 1..]
  {
    var i := IndexOf(xs, x);
    assert SpliceOne(xs, i) == xs[..i] + xs[i + 1..];
    assert 0 <= i < |xs| && xs[i] == x && x !in xs[..i];
  }

  /** Removing an absent element (indexOf gives -1) drops the last element instead. */
  lemma RemoveAbsent<T>(xs: seq<T>, x: T)
    requires x !in xs
    ensures SpliceOne(xs, IndexOf(xs, x)) == if xs == [] then [] else xs[..|xs| - 1]
  {
  }

  // ---------------------------------------------------------------------------
  // The hit clock of StateAttackEnemy
  // ---------------------------------------------------------------------------

  /** StateAttackEnemy's _hitTime and _animDuration. */
  const HitTime: real := 0.5
  const AnimDuration: real := 1.0

  /** The accumulated time and the _hasAttacked flag. */
  datatype HitClock = HitClock(time: real, hasAttacked: bool)

  /** Whether an update by dt fires the hit: not yet attacked and the new time reaches the hit time. */
  predicate HitsOn(c: HitClock, dt: real)
  {
    !c.hasAttacked && c.time + dt >= HitTime
  }

  /** The clock after one update by dt. */
  function Tick(c: HitClock, dt: real): HitClock
  {
    HitClock(c.time + dt, c.hasAttacked || c.time + dt >= HitTime)
  }

  /** The number of hits fired over a run of updates. */
  function HitCount(c: HitClock, dts: seq<real>): nat
    decreases |dts|
  {
    if dts == [] then 0
    else (if HitsOn(c, dts[0]) then 1 else 0) + HitCount(Tick(c, dts[0]), dts[1..])
  }

  /** The time accumulated by the first n updates. */
  function PrefixSum(dts: seq<real>, n: nat): real
    requires n <= |dts|
  {
    if n == 0 then 0.0 else dts[0] + PrefixSum(dts[1..], n - 1)
  }

  /** Some prefix of the updates brings the time from t0 to the hit time. */
  ghost predicate ReachesHitTime(t0: real, dts: seq<real>)
  {
    exists n :: 1 <= n <= |dts| && t0 + PrefixSum(dts, n) >= HitTime
  }

  /**
   * Over any run of updates the hit fires exactly once if some accumulated
   * time reaches the hit time (and it has not fired already), never otherwise.
   */
  lemma {:induction false} HitFiresOnce(c: HitClock, dts: seq<real>)
    ensures HitCount(c, dts) == if !c.hasAttacked && ReachesHitTime(c.time, dts) then 1 else 0
    decreases |dts|
  {
    if dts != [] {
      var d, rest := dts[0], dts[1..];
      var c' := Tick(c, d);
      HitFiresOnce(c', rest);
      assert PrefixSum(dts, 1) == d;
      if !c.hasAttacked && c.time + d < HitTime {
        if ReachesHitTime(c.time, dts) {
          var n :| 1 <= n <= |dts| && c.time + PrefixSum(dts, n) >= HitTime;
          assert n >= 2;
          assert c'.time + PrefixSum(rest, n - 1) >= HitTime;
        }
        if ReachesHitTime(c'.time, rest) {
          var m :| 1 <= m <= |rest| && c'.time + PrefixSum(rest, m) >= HitTime;
          assert c.time + PrefixSum(dts, m + 1) >= HitTime;
        }
      } else if !c.hasAttacked {
        assert c.time + PrefixSum(dts, 1) >= HitTime;
      }
    }
  }

  // ---------------------------------------------------------------------------
  // Units, attack states, factions
  // ---------------------------------------------------------------------------

  datatype UnitProperties = UnitProperties(moveRange: int, attackRange: int, health: real, unitType: int)

  /** Unit.FactionData: the unit's position in its roster when added, and its faction. */
  datatype FactionData = FactionData(uid: nat, faction: Faction)

  /** A listener broadcast; MoveStart carries the last path tile, None when the path is empty. */
  datatype UnitEvent =
    | OnMoveStart(unit: Unit, tile: Option<TileId>)
    | OnAttackStart(instance: AttackInstance<Unit>)
    | OnHit(instance: AttackInstance<Unit>)
    | OnDead(unit: Unit)

  /** A call made on a projectile behaviour. */
  datatype ProjectileCall = ProjectileStart(attacker: Unit, target: Unit) | ProjectileUpdate(dt: real)

  datatype StateKind = StartAttack | RotateTowardsEnemy | AttackEnemy | EndAttack

  /** Every broadcast to the static unit listeners, in order. */
  class EventLog {
    var events: seq<UnitEvent>

    constructor ()
      ensures events == []
    {
      events := [];
    }
  }

  /**
   * One of the attack states (UnitATKBaseState and its four subclasses,
   * told apart by kind). The rotation flag belongs to RotateTowardsEnemy;
   * time, hasAttacked and projectileStarted to StateAttackEnemy, whose
   * optional projectile is represented by its startDelay().
   */
  class AttackState {
    const kind: StateKind
    const projectileDelay: Option<real>
    var nextState: Option<AttackState>
    var attkInstance: Option<AttackInstance<Unit>>
    var stateRunning: bool
    var time: real
    var hasAttacked: bool
    var projectileStarted: bool

    constructor (kind: StateKind, projectileDelay: Option<real>)
      ensures this.kind == kind && this.projectileDelay == projectileDelay
      ensures nextState == None && attkInstance == None
      ensures !stateRunning && time == 0.0 && !hasAttacked && !projectileStarted
    {
      this.kind := kind;
      this.projectileDelay := projectileDelay;
      nextState := None;
      attkInstance := None;
      stateRunning := false;
      time := 0.0;
      hasAttacked := false;
      projectileStarted := false;
    }

    function Clock(): HitClock
      reads this
    {
      HitClock(time, hasAttacked)
    }

    /** setAttackInstance: the instance (and through it the attacker and target) used by the state. */
    method SetAttackInstance(instance: AttackInstance<Unit>)
      modifies this
      ensures attkInstance == Some(instance)
      ensures nextState == old(nextState) && stateRunning == old(stateRunning)
      ensures time == old(time) && hasAttacked == old(hasAttacked) && projectileStarted == old(projectileStarted)
    {
      attkInstance := Some(instance);
    }

    /**
     * onStart: StartAttack raises the turn gate, Rotate starts running,
     * AttackEnemy resets its clock and projectile flag, EndAttack ends the action.
     */
    method OnStart(turns: TurnManager<Faction>)
      requires kind == RotateTowardsEnemy ==> attkInstance.Some?
      modifies this, turns
      ensures nextState == old(nextState) && attkInstance == old(attkInstance)
      ensures kind == StartAttack ==> StartedAction(turns) && unchanged(this)
      ensures kind == EndAttack ==> EndedAction(turns) && unchanged(this)
      ensures kind == RotateTowardsEnemy ==>
                stateRunning && time == old(time) && hasAttacked == old(hasAttacked)
                && projectileStarted == old(projectileStarted) && unchanged(turns)
      ensures kind == AttackEnemy ==>
                Clock() == HitClock(0.0, false) && !projectileStarted && stateRunning == old(stateRunning)
                && unchanged(turns)
    {
      match kind {
        case StartAttack => turns.StartAction();
        case RotateTowardsEnemy => stateRunning := true;
        case AttackEnemy =>
          time := 0.0;
          hasAttacked := false;
          projectileStarted := false;
        case EndAttack => turns.EndAction();
      }
    }

    /** The rotation tween's completion callback: Rotate stops running. */
    method CompleteRotation()
      modifies this
      ensures !stateRunning
      ensures nextState == old(nextState) && attkInstance == old(attkInstance)
      ensures time == old(time) && hasAttacked == old(hasAttacked) && projectileStarted == old(projectileStarted)
    {
      stateRunning := false;
    }

    /**
     * onUpdate(dt): whether the state keeps running. StartAttack and EndAttack
     * stop at once; Rotate runs while its flag is set; AttackEnemy advances its
     * clock, fires the hit on the target once, drives the projectile if it has
     * one and runs until the animation time (and the projectile) is done.
     * finishedBefore and finishedAfter are the projectile's hasFinished()
     * answers at the two places the source asks.
     */
    method OnUpdate(dt: real, log: EventLog, finishedBefore: bool, finishedAfter: bool)
      returns (running: bool, calls: seq<ProjectileCall>)
      requires kind == AttackEnemy ==> attkInstance.Some?
      modifies this, log
      ensures nextState == old(nextState) && attkInstance == old(attkInstance) && stateRunning == old(stateRunning)
      ensures kind != AttackEnemy ==> unchanged(this) && unchanged(log) && calls == []
      ensures kind == StartAttack || kind == EndAttack ==> !running
      ensures kind == RotateTowardsEnemy ==> running == stateRunning
      ensures kind == AttackEnemy ==>
                && Clock() == Tick(old(Clock()), dt)
                && log.events == old(log.events) + (if HitsOn(old(Clock()), dt) then [OnHit(attkInstance.value)] else [])
      ensures kind == AttackEnemy && projectileDelay.None? ==>
                running == (time < AnimDuration) && calls == [] && projectileStarted == old(projectileStarted)
      ensures kind == AttackEnemy && projectileDelay.Some? ==>
                && running == !(time >= AnimDuration && finishedAfter)
                && projectileStarted == (old(projectileStarted) || time >= projectileDelay.value)
                && calls == if !old(projectileStarted) then
                              (if time >= projectileDelay.value
                               then [ProjectileStart(attkInstance.value.attacker, attkInstance.value.target)] else [])
                            else if !finishedBefore then [ProjectileUpdate(dt)] else []
    {
      calls := [];
      match kind {
        case StartAttack => running := false;
        case EndAttack => running := false;
        case RotateTowardsEnemy => running := stateRunning;
        case AttackEnemy =>
          time := time + dt;
          if time >= HitTime && !hasAttacked {
            hasAttacked := true;
            attkInstance.value.target.Hit(log, attkInstance.value);
          }
          if projectileDelay.Some? {
            if !projectileStarted {
              if time >= projectileDelay.value {
                projectileStarted := true;
                calls := [ProjectileStart(attkInstance.value.attacker, attkInstance.value.target)];
              }
            } else if !finishedBefore {
              calls := [ProjectileUpdate(dt)];
            }
            running := !(time >= AnimDuration && finishedAfter);
          } else {
            running := time < AnimDuration;
          }
      }
    }
  }

  class Unit {
    const properties: UnitProperties
    /** _currentHP: never set by the code modelled, so it is an input here. */
    var currentHP: real
    var tile: Option<TileId>
    var factionData: Option<FactionData>
    const attackStates: seq<AttackState>
    /** The state last handed to the unit's state machine. */
    var machineState: Option<AttackState>
    /** The path of the move whose follow-path tween has not completed yet. */
    var pendingMove: Option<seq<TileId>>

    /** The four attack states in order Start, Rotate, AttackEnemy, End, each linked to the next; End has no successor. */
    ghost predicate Chained()
      reads this, attackStates
    {
      && |attackStates| == 4
      && attackStates[0].kind == StartAttack && attackStates[1].kind == RotateTowardsEnemy
      && attackStates[2].kind == AttackEnemy && attackStates[3].kind == EndAttack
      && attackStates[0].nextState == Some(attackStates[1])
      && attackStates[1].nextState == Some(attackStates[2])
      && attackStates[2].nextState == Some(attackStates[3])
      && attackStates[3].nextState == None
    }

    constructor (properties: UnitProperties, hp: real)
      ensures this.properties == properties && currentHP == hp
      ensures tile == None && factionData == None && machineState == None && pendingMove == None
      ensures Chained() && fresh(attackStates)
      ensures forall s :: s in attackStates ==> s.attkInstance == None && s.projectileDelay == None
    {
      this.properties := properties;
      currentHP := hp;
      tile := None;
      factionData := None;
      machineState := None;
      pendingMove := None;
      var s0 := new AttackState(StartAttack, None);
      var s1 := new AttackState(RotateTowardsEnemy, None);
      var s2 := new AttackState(AttackEnemy, None);
      var s3 := new AttackState(EndAttack, None);
      attackStates := [s0, s1, s2, s3];
      new;
      for i := 0 to |attackStates| - 1
        invariant forall j :: 0 <= j < i ==> attackStates[j].nextState == Some(attackStates[j + 1])
        invariant forall j :: i <= j < |attackStates| ==> attackStates[j].nextState == None
        invariant forall s :: s in attackStates ==> s.attkInstance == None && s.projectileDelay == None
        invariant this.properties == properties && currentHP == hp
        invariant tile == None && factionData == None && machineState == None && pendingMove == None
      {
        attackStates[i].nextState := Some(attackStates[i + 1]);
      }
    }

    function MoveRange(): int
    {
      properties.moveRange
    }

    function AttackRange(): int
    {
      properties.attackRange
    }

    function UnitType(): int
    {
      properties.unitType
    }

    function HP(): real
      reads this
    {
      currentHP
    }

    /** getDamage: every unit deals 1. */
    function Damage(): real
    {
      1.0
    }

    /**
     * move: broadcast onMoveStart with the last path tile, raise the turn gate
     * and clear the unit's current tile; the unit's own tile field is kept
     * until the move completes.
     */
    method Move(tiles: TileGraph<Unit>, turns: TurnManager<Faction>, log: EventLog, tilePath: seq<TileId>)
      requires tiles.Valid() && tile.Some? && tile.value < tiles.Count()
      requires forall j :: 0 <= j < |tilePath| ==> tilePath[j] < tiles.Count()
      modifies this, tiles, turns, log
      ensures tiles.Valid()
      ensures tiles.objects == old(tiles.objects)[old(tile).value := None]
      ensures tiles.neighbourList == old(tiles.neighbourList) && tiles.parent == old(tiles.parent)
      ensures tiles.listState == old(tiles.listState) && tiles.scoreG == old(tiles.scoreG)
      ensures tiles.scoreH == old(tiles.scoreH) && tiles.scoreF == old(tiles.scoreF)
      ensures tiles.distance == old(tiles.distance) && tiles.aiWeight == old(tiles.aiWeight)
      ensures StartedAction(turns)
      ensures log.events == old(log.events) + [OnMoveStart(this, if tilePath == [] then None else Some(tilePath[|tilePath| - 1]))]
      ensures tile == old(tile) && factionData == old(factionData) && currentHP == old(currentHP)
      ensures machineState == old(machineState) && pendingMove == Some(tilePath)
    {
      log.events := log.events + [OnMoveStart(this, if tilePath == [] then None else Some(tilePath[|tilePath| - 1]))];
      turns.StartAction();
      tiles.SetObject(tile.value, None);
      pendingMove := Some(tilePath);
    }

    /** The follow-path tween's completion: the last path tile now holds the unit, the unit is on it, and the action ends. */
    method CompleteMove(tiles: TileGraph<Unit>, turns: TurnManager<Faction>)
      requires tiles.Valid() && pendingMove.Some? && pendingMove.value != []
      requires pendingMove.value[|pendingMove.value| - 1] < tiles.Count()
      modifies this, tiles, turns
      ensures var target := old(pendingMove).value[|old(pendingMove).value| - 1];
              && tiles.objects == old(tiles.objects)[target := Some(this)]
              && tile == Some(target)
      ensures tiles.Valid()
      ensures tiles.neighbourList == old(tiles.neighbourList) && tiles.parent == old(tiles.parent)
      ensures tiles.listState == old(tiles.listState) && tiles.scoreG == old(tiles.scoreG)
      ensures tiles.scoreH == old(tiles.scoreH) && tiles.scoreF == old(tiles.scoreF)
      ensures tiles.distance == old(tiles.distance) && tiles.aiWeight == old(tiles.aiWeight)
      ensures EndedAction(turns)
      ensures pendingMove == None && factionData == old(factionData) && currentHP == old(currentHP)
      ensures machineState == old(machineState)
    {
      var targetTile := pendingMove.value[|pendingMove.value| - 1];
      tiles.SetObject(targetTile, Some(this));
      tile := Some(targetTile);
      pendingMove := None;
      turns.EndAction();
    }

    /** attack: broadcast onAttackStart, give every state the instance and start the chain at StartAttack. */
    method Attack(log: EventLog, instance: AttackInstance<Unit>)
      requires Chained()
      modifies this, log, set s | s in attackStates
      ensures Chained()
      ensures forall i :: 0 <= i < |attackStates| ==> attackStates[i].attkInstance == Some(instance)
      ensures forall i :: 0 <= i < |attackStates| ==>
                && attackStates[i].stateRunning == old(attackStates[i].stateRunning)
                && attackStates[i].time == old(attackStates[i].time)
                && attackStates[i].hasAttacked == old(attackStates[i].hasAttacked)
                && attackStates[i].projectileStarted == old(attackStates[i].projectileStarted)
      ensures machineState == Some(attackStates[0])
      ensures log.events == old(log.events) + [OnAttackStart(instance)]
      ensures tile == old(tile) && factionData == old(factionData) && currentHP == old(currentHP)
      ensures pendingMove == old(pendingMove)
    {
      log.events := log.events + [OnAttackStart(instance)];
      ghost var states := attackStates;
      for i := 0 to |attackStates|
        invariant attackStates == states && Chained()
        invariant forall j :: 0 <= j < i ==> states[j].attkInstance == Some(instance)
        invariant forall j :: 0 <= j < |states| ==>
                    && states[j].stateRunning == old(states[j].stateRunning)
                    && states[j].time == old(states[j].time)
                    && states[j].hasAttacked == old(states[j].hasAttacked)
                    && states[j].projectileStarted == old(states[j].projectileStarted)
        invariant log.events == old(log.events) + [OnAttackStart(instance)]
        invariant tile == old(tile) && factionData == old(factionData) && currentHP == old(currentHP)
        invariant pendingMove == old(pendingMove) && machineState == old(machineState)
      {
        var state := attackStates[i];
        assert forall j :: 0 <= j < |states| && j != i ==> states[j] != state;
        state.SetAttackInstance(instance);
      }
      machineState := Some(attackStates[0]);
    }

    /** hit: broadcast onHit. */
    method Hit(log: EventLog, instance: AttackInstance<Unit>)
      modifies log
      ensures log.events == old(log.events) + [OnHit(instance)]
    {
      log.events := log.events + [OnHit(instance)];
    }

    /**
     * kill: broadcast onDead and remove the unit from its faction's roster.
     * Neither the unit's tile field nor the tile's occupant is touched.
     */
    method Kill(log: EventLog)
      requires factionData.Some?
      modifies log, factionData.value.faction
      ensures log.events == old(log.events) + [OnDead(this)]
      ensures factionData.value.faction.units == SpliceOne(old(factionData.value.faction.units),
                                                           IndexOf(old(factionData.value.faction.units), this))
      ensures factionData.value.faction.name == old(factionData.value.faction.name)
    {
      log.events := log.events + [OnDead(this)];
      factionData.value.faction.RemoveUnit(this);
    }
  }

  /** AttackManager.getAttackInstance(attacker, target): the attack with the units' own type, damage and HP. */
  function AttackFor(mgr: AttackManager, attacker: Unit, target: Unit): AttackInstance<Unit>
    reads mgr, target
    requires mgr.damageBonus.Some?
  {
    mgr.GetAttackInstance(attacker, target, attacker.UnitType(), attacker.Damage(), target.UnitType(), target.HP())
  }

  class Faction {
    const name: string
    var units: seq<Unit>

    /** The constructor registers the new faction at the end of the static list. */
    constructor (factionName: string, registry: FactionRegistry)
      modifies registry
      ensures name == factionName && units == []
      ensures registry.factions == old(registry.factions) + [this]
    {
      name := factionName;
      units := [];
      new;
      registry.factions := registry.factions + [this];
    }

    /** addUnit: the unit gets uid = the roster length before the call, and is appended. */
    method AddUnit(unit: Unit)
      modifies this, unit
      ensures units == old(units) + [unit]
      ensures unit.factionData == Some(FactionData(|old(units)|, this))
      ensures unit.tile == old(unit.tile) && unit.currentHP == old(unit.currentHP)
      ensures unit.machineState == old(unit.machineState) && unit.pendingMove == old(unit.pendingMove)
    {
      unit.factionData := Some(FactionData(|units|, this));
      units := units + [unit];
    }

    /** getUnit: the roster element at position uid, None where the source reads undefined. */
    function GetUnit(uid: int): (u: Option<Unit>)
      reads this
      ensures u.Some? <==> 0 <= uid < |units|
      ensures u.Some? ==> u.value == units[uid]
    {
      if 0 <= uid < |units| then Some(units[uid]) else None
    }

    function GetUnits(): seq<Unit>
      reads this
    {
      units
    }

    /** removeUnit: splice out the element at indexOf(unit), which is -1 for an absent unit. */
    method RemoveUnit(unit: Unit)
      modifies this
      ensures units == SpliceOne(old(units), IndexOf(old(units), unit))
    {
      units := SpliceOne(units, IndexOf(units, unit));
    }
  }

  /** After a removal, getUnit(uid) of a unit added earlier need not return that unit. */
  lemma UidGoesStale(a: Unit, b: Unit)
    requires a != b
    ensures SpliceOne([a, b], IndexOf([a, b], a)) == [b]
    ensures |SpliceOne([a, b], IndexOf([a, b], a))| <= 1
  {
    assert [a, b][..0] == [] && [a, b][1..] == [b];
  }

  /** The concatenation of every roster, in faction order. */
  ghost function AllUnits(fs: seq<Faction>): seq<Unit>
    reads set f | f in fs
  {
    if fs == [] then [] else AllUnits(fs[..|fs| - 1]) + fs[|fs| - 1].units
  }

  /** A unit is in the concatenation exactly when it is in some faction's roster. */
  lemma {:induction false} AllUnitsMembers(fs: seq<Faction>, u: Unit)
    ensures u in AllUnits(fs) <==> exists i :: 0 <= i < |fs| && u in fs[i].units
  {
    if fs != [] {
      var init := fs[..|fs| - 1];
      AllUnitsMembers(init, u);
      if u in AllUnits(init) {
        var i :| 0 <= i < |init| && u in init[i].units;
        assert u in fs[i].units;
      }
      if exists i :: 0 <= i < |fs| && u in fs[i].units {
        var i :| 0 <= i < |fs| && u in fs[i].units;
        if i < |fs| - 1 {
          assert u in init[i].units;
        }
      }
    }
  }

  /** The static Faction._factions list. */
  class FactionRegistry {
    var factions: seq<Faction>

    constructor ()
      ensures factions == []
    {
      factions := [];
    }

    /**
     * getFaction: the callback's return leaves only the callback, forEach
     * discards it, and the function then returns null whatever the name.
     */
    method GetFaction(factionName: string) returns (found: Option<Faction>)
      ensures found == None
    {
      found := None;
      for i := 0 to |factions| {
        var matches := factions[i].name == factionName;
      }
    }

    /** getAllUnits: every roster concatenated in registration order. */
    method GetAllUnits() returns (ret: seq<Unit>)
      ensures ret == AllUnits(factions)
    {
      ret := [];
      for i := 0 to |factions|
        invariant ret == AllUnits(factions[..i])
      {
        assert factions[..i + 1][..i] == factions[..i];
        ret := ret + factions[i].units;
      }
      assert factions[..|factions|] == factions;
    }
  }
}
