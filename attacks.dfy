/**
 * AttackManager: the sparse damage-bonus table (attacker type x target type
 * -> multiplier) and the formula that turns it into an attack instance.
 * Unit types are integers and damage is exact real arithmetic.
 */
module Attacks {
  import opened Options

  /** The nested bonus table: forType -> againstType -> multiplier. */
  type BonusTable = map<int, map<int, real>>

  /** The registered bonus of a pair, 0 for a pair nobody registered. */
  function Lookup(table: BonusTable, forType: int, againstType: int): real
  {
    if forType in table && againstType in table[forType] then table[forType][againstType] else 0.0
  }

  /** The table after registering multiplier m for the pair (forType, againstType). */
  function Added(table: BonusTable, forType: int, againstType: int, m: real): BonusTable
  {
    var inner := if forType in table then table[forType] else map[];
    table[forType := inner[againstType := m]]
  }

  /** A registered pair reads back the multiplier just written. */
  lemma AddedReadsBack(table: BonusTable, forType: int, againstType: int, m: real)
    ensures Lookup(Added(table, forType, againstType, m), forType, againstType) == m
  {
  }

  /** Registering one pair leaves the bonus of every other pair as it was. */
  lemma AddedKeepsOthers(table: BonusTable, forType: int, againstType: int, m: real, f: int, a: int)
    requires (f, a) != (forType, againstType)
    ensures Lookup(Added(table, forType, againstType, m), f, a) == Lookup(table, f, a)
  {
  }

  /** A later registration of the same pair overwrites the earlier one. */
  lemma AddedOverwrites(table: BonusTable, forType: int, againstType: int, m1: real, m2: real, f: int, a: int)
    ensures Lookup(Added(Added(table, forType, againstType, m1), forType, againstType, m2), f, a)
         == Lookup(Added(table, forType, againstType, m2), f, a)
  {
    if (f, a) != (forType, againstType) {
      AddedKeepsOthers(Added(table, forType, againstType, m1), forType, againstType, m2, f, a);
      AddedKeepsOthers(table, forType, againstType, m1, f, a);
      AddedKeepsOthers(table, forType, againstType, m2, f, a);
    }
  }

  /** AttackManager.AttackInstance, generic in the unit type U. */
  datatype AttackInstance<U> = AttackInstance(bonusDamage: real, totalDamage: real, isTargetDead: bool, attacker: U, target: U)

  class AttackManager {
    /** The static bonus table; None until the first addBonus creates it. */
    var damageBonus: Option<BonusTable>

    constructor ()
      ensures damageBonus == None
    {
      damageBonus := None;
    }

    /** addBonus: create the table (and the inner row) when missing, then set the pair. */
    method AddBonus(forType: int, againstType: int, bonusMultiplier: real)
      modifies this
      ensures damageBonus.Some?
      ensures damageBonus.value == Added(if old(damageBonus).Some? then old(damageBonus).value else map[],
                                         forType, againstType, bonusMultiplier)
    {
      var table: BonusTable := if damageBonus.None? then map[] else damageBonus.value;
      if forType !in table {
        table := table[forType := map[]];
      }
      table := table[forType := table[forType][againstType := bonusMultiplier]];
      damageBonus := Some(table);
    }

    /** getBonus: the registered multiplier or 0; the table must exist (the source dereferences it). */
    function GetBonus(forType: int, againstType: int): (b: real)
      reads this
      requires damageBonus.Some?
      ensures forType !in damageBonus.value ==> b == 0.0
    {
      Lookup(damageBonus.value, forType, againstType)
    }

    /**
     * getAttackInstance for an attacker of type attackerType dealing damage
     * against a target of type targetType with targetHP hit points.
     */
    function GetAttackInstance<U>(attacker: U, target: U, attackerType: int, damage: real,
                                  targetType: int, targetHP: real): (r: AttackInstance<U>)
      reads this
      requires damageBonus.Some?
      ensures r.attacker == attacker && r.target == target
      ensures r.bonusDamage == Lookup(damageBonus.value, attackerType, targetType)
      ensures r.isTargetDead <==> targetHP <= r.totalDamage
    {
      var bonus := GetBonus(attackerType, targetType);
      var total := damage * (1.0 + bonus);
      AttackInstance(bonus, total, targetHP - total <= 0.0, attacker, target)
    }

    /** Without a registered bonus an attack deals exactly the base damage. */
    lemma NoBonusBaseDamage<U>(attacker: U, target: U, attackerType: int, damage: real, targetType: int, targetHP: real)
      requires damageBonus.Some?
      requires Lookup(damageBonus.value, attackerType, targetType) == 0.0
      ensures GetAttackInstance(attacker, target, attackerType, damage, targetType, targetHP).totalDamage == damage
    {
    }

    /** A positive bonus multiplies positive base damage up; a target that dies at some HP also dies at any lower HP. */
    lemma BonusRaisesDamage<U>(attacker: U, target: U, attackerType: int, damage: real, targetType: int,
                               targetHP: real, lowerHP: real)
      requires damageBonus.Some? && damage > 0.0 && lowerHP <= targetHP
      ensures var r := GetAttackInstance(attacker, target, attackerType, damage, targetType, targetHP);
              r.bonusDamage > 0.0 ==> r.totalDamage > damage
      ensures GetAttackInstance(attacker, target, attackerType, damage, targetType, targetHP).isTargetDead ==>
              GetAttackInstance(attacker, target, attackerType, damage, targetType, lowerHP).isTargetDead
    {
      var b := Lookup(damageBonus.value, attackerType, targetType);
      if b > 0.0 {
        assert damage * (1.0 + b) == damage + damage * b;
        assert damage * b > 0.0;
      }
    }
  }
}
