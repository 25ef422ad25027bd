/**
 * The AI's pure decision rules: the score of attacking from a tile, the
 * running maximum over the tiles in attack range, the weight order used to
 * sort candidate actions, the order in which a turn's actions are performed,
 * and the unit chosen to rest. Weights are integers or minus infinity
 * (Number.NEGATIVE_INFINITY, the maximum of no score at all).
 */
module AIScoring {
  import opened Options
  import opened Tiles
  import opened Attacks
  import opened Units
  import opened GridManagement

  // ---------------------------------------------------------------------------
  // Weights
  // ---------------------------------------------------------------------------

  datatype Weight = NegInf | Fin(value: int)

  /** a < b on weights; minus infinity is below every integer and not below itself. */
  predicate Less(a: Weight, b: Weight)
  {
    b.Fin? && (a.NegInf? || a.value < b.value)
  }

  /** An AIAction: the unit, the tile to move to (None to stay), the unit to attack (None for none) and the weight. */
  datatype AIAction = AIAction(unit: Unit, moveToTile: Option<TileId>, atkUnit: Option<Unit>, weight: Weight)

  /** actionFinishesTurn: the action ends with an attack. */
  predicate ActionFinishesTurn(a: AIAction)
  {
    a.atkUnit.Some?
  }

  // ---------------------------------------------------------------------------
  // Scoring the tiles in attack range
  // ---------------------------------------------------------------------------

  /** The score of one tile in attack range and the enemy standing on it (None for a tile without an enemy). */
  datatype Candidate = Candidate(score: int, enemy: Option<Unit>)

  /**
   * The weight of attacking from a tile of weight base towards tile k: an
   * enemy there adds 2, 2 more when the attacker has a bonus against it, then
   * 5 for a kill or else 3 when the target would be left below 0.2 HP.
   */
  function TileCandidate(objects: seq<Option<Unit>>, k: TileId, mgr: AttackManager, unit: Unit, base: int): (c: Candidate)
    reads mgr, unit, set o | o in objects && o.Some? :: o.value
    requires k < |objects| && mgr.damageBonus.Some? && unit.factionData.Some?
    ensures c.enemy.Some? <==> HoldsEnemy(objects[k], unit.factionData.value.faction)
    ensures c.enemy.Some? ==> c.enemy == objects[k] && base + 2 <= c.score <= base + 9
    ensures c.enemy.Some? && AttackFor(mgr, unit, c.enemy.value).isTargetDead ==> c.score >= base + 7
    ensures c.enemy.Some? && !AttackFor(mgr, unit, c.enemy.value).isTargetDead ==> c.score <= base + 7
    ensures c.enemy.None? ==> c.score == base
  {
    assert objects[k] in objects;
    if HoldsEnemy(objects[k], unit.factionData.value.faction) then
      var target := objects[k].value;
      var predicted := AttackFor(mgr, unit, target);
      var withBonus := base + 2 + (if predicted.bonusDamage > 0.0 then 2 else 0);
      var score := withBonus + (if predicted.isTargetDead then 5
                                else if target.HP() - predicted.totalDamage < 0.2 then 3 else 0);
      Candidate(score, Some(target))
    else
      Candidate(base, None)
  }

  /** The candidates of the tiles xs, in order. */
  ghost function Candidates(objects: seq<Option<Unit>>, xs: seq<TileId>, mgr: AttackManager, unit: Unit, base: int)
    : (cs: seq<Candidate>)
    reads mgr, unit, set o | o in objects && o.Some? :: o.value
    requires mgr.damageBonus.Some? && unit.factionData.Some?
    requires forall j :: 0 <= j < |xs| ==> xs[j] < |objects|
    ensures |cs| == |xs|
    ensures forall j :: 0 <= j < |xs| ==> cs[j] == TileCandidate(objects, xs[j], mgr, unit, base)
  {
    if xs == [] then []
    else Candidates(objects, xs[..|xs| - 1], mgr, unit, base) + [TileCandidate(objects, xs[|xs| - 1], mgr, unit, base)]
  }

  /** One tile of the scan: a score above the maximum so far becomes the maximum, with its enemy (or None). */
  function Step(best: (Weight, Option<Unit>), c: Candidate): (Weight, Option<Unit>)
  {
    if Less(best.0, Fin(c.score)) then (Fin(c.score), c.enemy) else best
  }

  /** The scan of AIAction's constructor: (maxWeight, heaviestAtk) after all candidates, left to right. */
  function Heaviest(cs: seq<Candidate>): (Weight, Option<Unit>)
  {
    if cs == [] then (NegInf, None) else Step(Heaviest(cs[..|cs| - 1]), cs[|cs| - 1])
  }

  /** Scanning one more candidate is one more Step. */
  lemma HeaviestSnoc(cs: seq<Candidate>, i: nat)
    requires i < |cs|
    ensures Heaviest(cs[..i + 1]) == Step(Heaviest(cs[..i]), cs[i])
  {
    assert cs[..i + 1][..i] == cs[..i];
  }

  /**
   * The scan finds the first candidate of maximal score: its weight is that
   * score and its attack target that candidate's enemy; with no candidate the
   * weight is minus infinity and there is no target.
   */
  lemma HeaviestIsFirstMax(cs: seq<Candidate>)
    ensures cs == [] <==> Heaviest(cs).0 == NegInf
    ensures cs == [] ==> Heaviest(cs).1 == None
    ensures cs != [] ==> exists i :: 0 <= i < |cs| && Heaviest(cs) == (Fin(cs[i].score), cs[i].enemy)
                                     && (forall j :: 0 <= j < |cs| ==> cs[j].score <= cs[i].score)
                                     && (forall j :: 0 <= j < i ==> cs[j].score < cs[i].score)
  {
    if cs != [] {
      FirstMaxIsHeaviest(cs);
      var i := FirstMax(cs);
      assert Heaviest(cs) == (Fin(cs[i].score), cs[i].enemy);
    }
  }

  /** The position of the first candidate of maximal score. */
  function FirstMax(cs: seq<Candidate>): (i: nat)
    requires cs != []
    ensures i < |cs|
  {
    if |cs| == 1 then 0
    else
      var i0 := FirstMax(cs[..|cs| - 1]);
      if cs[i0].score < cs[|cs| - 1].score then |cs| - 1 else i0
  }

  /** The scan ends on the first maximum: no candidate scores more, and every earlier one scores less. */
  lemma {:induction false} FirstMaxIsHeaviest(cs: seq<Candidate>)
    requires cs != []
    ensures Heaviest(cs) == (Fin(cs[FirstMax(cs)].score), cs[FirstMax(cs)].enemy)
    ensures forall j :: 0 <= j < |cs| ==> cs[j].score <= cs[FirstMax(cs)].score
    ensures forall j :: 0 <= j < FirstMax(cs) ==> cs[j].score < cs[FirstMax(cs)].score
  {
    if |cs| > 1 {
      var init := cs[..|cs| - 1];
      FirstMaxIsHeaviest(init);
      assert forall j :: 0 <= j < |init| ==> init[j] == cs[j];
    }
  }

  // ---------------------------------------------------------------------------
  // Sorting by weight (Array.sort with (a, b) => b.weight - a.weight)
  // ---------------------------------------------------------------------------

  /** Heaviest first: no action is lighter than one after it. */
  predicate Descending(s: seq<AIAction>)
  {
    forall i, j :: 0 <= i < j < |s| ==> !Less(s[i].weight, s[j].weight)
  }

  /** Insert x after every action at least as heavy, before the first lighter one. */
  function InsertByWeight(x: AIAction, ys: seq<AIAction>): seq<AIAction>
  {
    if ys == [] then [x]
    else if Less(ys[0].weight, x.weight) then [x] + ys
    else [ys[0]] + InsertByWeight(x, ys[1..])
  }

  /** A stable sort, heaviest first: equal weights keep their input order (NaN differences of two minus infinities count as equal). */
  function SortByWeight(xs: seq<AIAction>): seq<AIAction>
  {
    if xs == [] then [] else InsertByWeight(xs[|xs| - 1], SortByWeight(xs[..|xs| - 1]))
  }

  /** Every action of the insertion is x or one of ys. */
  lemma {:induction false} InsertByWeightMembers(x: AIAction, ys: seq<AIAction>)
    ensures forall e :: e in InsertByWeight(x, ys) ==> e == x || e in ys
  {
    if ys != [] && !Less(ys[0].weight, x.weight) {
      InsertByWeightMembers(x, ys[1..]);
    }
  }

  /** The insertion adds exactly x. */
  lemma {:induction false} InsertByWeightPermutes(x: AIAction, ys: seq<AIAction>)
    ensures multiset(InsertByWeight(x, ys)) == multiset(ys) + multiset{x}
  {
    if ys != [] && !Less(ys[0].weight, x.weight) {
      InsertByWeightPermutes(x, ys[1..]);
      assert ys == [ys[0]] + ys[1..];
    }
  }

  /** Inserting into a heaviest-first list keeps it heaviest first and adds exactly x. */
  lemma {:induction false} InsertByWeightSorted(x: AIAction, ys: seq<AIAction>)
    requires Descending(ys)
    ensures Descending(InsertByWeight(x, ys))
    ensures multiset(InsertByWeight(x, ys)) == multiset(ys) + multiset{x}
  {
    InsertByWeightPermutes(x, ys);
    if ys == [] {
    } else if Less(ys[0].weight, x.weight) {
      forall j | 0 <= j < |ys| ensures !Less(x.weight, ys[j].weight) {
        if j > 0 { assert !Less(ys[0].weight, ys[j].weight); }
      }
    } else {
      var rest := ys[1..];
      assert Descending(rest);
      InsertByWeightSorted(x, rest);
      InsertByWeightMembers(x, rest);
      var r := InsertByWeight(x, rest);
      assert forall m :: 0 <= m < |rest| ==> !Less(ys[0].weight, rest[m].weight) by {
        forall m | 0 <= m < |rest| ensures !Less(ys[0].weight, rest[m].weight) {
          assert rest[m] == ys[m + 1];
        }
      }
      forall j | 0 <= j < |r| ensures !Less(ys[0].weight, r[j].weight) {
        if r[j] != x {
          assert r[j] in rest;
        }
      }
    }
  }

  /** The sort orders heaviest first and is a permutation of its input. */
  lemma {:induction false} SortByWeightSorted(xs: seq<AIAction>)
    ensures Descending(SortByWeight(xs))
    ensures multiset(SortByWeight(xs)) == multiset(xs)
    ensures |SortByWeight(xs)| == |xs|
  {
    if xs != [] {
      var init := xs[..|xs| - 1];
      SortByWeightSorted(init);
      InsertByWeightSorted(xs[|xs| - 1], SortByWeight(init));
      assert xs == init + [xs[|xs| - 1]];
    }
  }

  // ---------------------------------------------------------------------------
  // The order of a turn's actions (sortActions)
  // ---------------------------------------------------------------------------

  /** The actions of xs that do (finishing) or do not finish the turn, in input order. */
  function Filter(xs: seq<AIAction>, finishing: bool): (ys: seq<AIAction>)
    ensures forall j :: 0 <= j < |ys| ==> ActionFinishesTurn(ys[j]) == finishing
    ensures |ys| <= |xs|
  {
    if xs == [] then []
    else
      var rest := Filter(xs[..|xs| - 1], finishing);
      if ActionFinishesTurn(xs[|xs| - 1]) == finishing then rest + [xs[|xs| - 1]] else rest
  }

  /** The two filters split the actions between them. */
  lemma {:induction false} FilterSplits(xs: seq<AIAction>)
    ensures multiset(Filter(xs, false)) + multiset(Filter(xs, true)) == multiset(xs)
    ensures |Filter(xs, false)| + |Filter(xs, true)| == |xs|
  {
    if xs != [] {
      var init := xs[..|xs| - 1];
      FilterSplits(init);
      assert xs == init + [xs[|xs| - 1]];
    }
  }

  /**
   * sortActions: the actions that only move come first, in their own order,
   * then the attacking actions, heaviest first.
   */
  function SortActions(xs: seq<AIAction>): (r: seq<AIAction>)
    ensures |r| == |xs|
  {
    FilterSplits(xs);
    SortByWeightSorted(Filter(xs, true));
    Filter(xs, false) + SortByWeight(Filter(xs, true))
  }

  /** The ordering is a permutation; no attacking action precedes a moving one; the attacking ones are heaviest first. */
  lemma SortActionsOrder(xs: seq<AIAction>)
    ensures multiset(SortActions(xs)) == multiset(xs)
    ensures forall i, j :: 0 <= i < j < |SortActions(xs)| && ActionFinishesTurn(SortActions(xs)[i])
              ==> ActionFinishesTurn(SortActions(xs)[j])
    ensures Descending(SortActions(xs)[|Filter(xs, false)|..])
  {
    var waiting, finishing := Filter(xs, false), Filter(xs, true);
    FilterSplits(xs);
    SortByWeightSorted(finishing);
    var sorted := SortByWeight(finishing);
    var r := SortActions(xs);
    assert r[|waiting|..] == sorted;
    forall j | 0 <= j < |sorted| ensures ActionFinishesTurn(sorted[j]) {
      assert sorted[j] in multiset(finishing);
      var m :| 0 <= m < |finishing| && finishing[m] == sorted[j];
    }
  }

  // ---------------------------------------------------------------------------
  // The unit that rests (startNextAction's lessHPUnit)
  // ---------------------------------------------------------------------------

  /** best is the first unit of highest HP, or None when there is no unit. */
  ghost predicate FirstHighestHP(units: seq<Unit>, best: Option<Unit>)
    reads set u | u in units
  {
    && (best.None? <==> units == [])
    && (best.Some? ==>
          exists i :: 0 <= i < |units| && units[i] == best.value
                      && (forall j :: 0 <= j < |units| ==> units[j].HP() <= units[i].HP())
                      && (forall j :: 0 <= j < i ==> units[j].HP() < units[i].HP()))
  }

  /** The loop over the AI roster: a unit replaces the one kept so far only with strictly more HP. */
  method HighestHP(units: seq<Unit>) returns (lessHPUnit: Option<Unit>)
    ensures FirstHighestHP(units, lessHPUnit)
  {
    lessHPUnit := None;
    ghost var best := 0;
    for i := 0 to |units|
      invariant lessHPUnit.None? <==> i == 0
      invariant lessHPUnit.Some? ==> 0 <= best < i && units[best] == lessHPUnit.value
      invariant lessHPUnit.Some? ==> forall j :: 0 <= j < i ==> units[j].HP() <= units[best].HP()
      invariant lessHPUnit.Some? ==> forall j :: 0 <= j < best ==> units[j].HP() < units[best].HP()
    {
      var unit := units[i];
      if lessHPUnit.None? || lessHPUnit.value.HP() < unit.HP() {
        lessHPUnit := Some(unit);
        best := i;
      }
    }
  }

  // ---------------------------------------------------------------------------
  // The random pick among the heaviest actions
  // ---------------------------------------------------------------------------

  /** Math.floor(r * n). */
  function PickIndex(r: real, n: nat): int
  {
    (r * n as real).Floor
  }

  /** With 0 <= r < 1, Math.floor(r * n) lies in [0, n) for n > 0 and is 0 for n = 0: index n itself is never drawn. */
  lemma PickBelow(r: real, n: nat)
    requires 0.0 <= r < 1.0
    ensures 0 <= PickIndex(r, n)
    ensures n == 0 ==> PickIndex(r, n) == 0
    ensures n > 0 ==> PickIndex(r, n) < n
  {
    assert 0.0 <= r * n as real;
    if n > 0 {
      assert r * n as real < n as real by {
        assert (1.0 - r) * n as real > 0.0;
      }
    }
  }

  /** The last position of the run of actions as heavy as the first, looking from position i on. */
  function TiedRunEnd(sorted: seq<AIAction>, i: nat): (last: nat)
    requires 1 <= i <= |sorted|
    ensures i - 1 <= last < |sorted|
    decreases |sorted| - i
  {
    if i == |sorted| || Less(sorted[i].weight, sorted[0].weight) then i - 1 else TiedRunEnd(sorted, i + 1)
  }

  /** sameValueLastIndex: the last position of the heaviest run of sorted (0 when there is no action). */
  function LastTied(sorted: seq<AIAction>): nat
  {
    if sorted == [] then 0 else TiedRunEnd(sorted, 1)
  }

  /** The action weightAIUnitMove returns from its actions for the draw r: sorted heaviest first, the one at floor(r * sameValueLastIndex). */
  function PickOf(actions: seq<AIAction>, r: real): AIAction
    requires actions != [] && 0.0 <= r < 1.0
  {
    SortByWeightSorted(actions);
    var sorted := SortByWeight(actions);
    PickBelow(r, LastTied(sorted));
    sorted[PickIndex(r, LastTied(sorted))]
  }

  /**
   * a is the pick among actions for the draw r, spelled out: one of the
   * actions, outweighed by none; the heaviest-first sort has its heaviest
   * run at positions 0 to lastTied, a at pick = floor(r * lastTied) inside
   * it, and pick is never lastTied unless the run has length one.
   */
  predicate PickedAmong(a: AIAction, actions: seq<AIAction>, r: real)
  {
    var sorted := SortByWeight(actions);
    var lastTied := LastTied(sorted);
    var pick := PickIndex(r, lastTied);
    && a in actions && (forall b :: b in actions ==> !Less(a.weight, b.weight))
    && 0 <= pick <= lastTied < |sorted| && sorted[pick] == a
    && (forall j :: 0 <= j <= lastTied ==> sorted[j].weight == a.weight)
    && (lastTied + 1 < |sorted| ==> Less(sorted[lastTied + 1].weight, a.weight))
    && (lastTied == 0 || pick < lastTied)
  }

  /** In a heaviest-first list, the run found from i holds only actions as heavy as the first, and the action after it is lighter. */
  lemma {:induction false} TiedRunEndSpec(sorted: seq<AIAction>, i: nat)
    requires 1 <= i <= |sorted| && Descending(sorted)
    requires forall j :: 0 <= j < i ==> sorted[j].weight == sorted[0].weight
    ensures forall j :: 0 <= j <= TiedRunEnd(sorted, i) ==> sorted[j].weight == sorted[0].weight
    ensures TiedRunEnd(sorted, i) + 1 < |sorted| ==> Less(sorted[TiedRunEnd(sorted, i) + 1].weight, sorted[0].weight)
    decreases |sorted| - i
  {
    if i < |sorted| && !Less(sorted[i].weight, sorted[0].weight) {
      assert !Less(sorted[0].weight, sorted[i].weight);
      TiedRunEndSpec(sorted, i + 1);
    }
  }

  /**
   * The pick of weightAIUnitMove is one of the actions, none outweighs it,
   * and it is never the last action of a heaviest run of two or more.
   */
  lemma PickOfHeaviest(actions: seq<AIAction>, r: real)
    requires actions != [] && 0.0 <= r < 1.0
    ensures PickedAmong(PickOf(actions, r), actions, r)
  {
    SortByWeightSorted(actions);
    var sorted := SortByWeight(actions);
    TiedRunEndSpec(sorted, 1);
    PickBelow(r, LastTied(sorted));
    var a := PickOf(actions, r);
    assert a in multiset(sorted);
    forall b | b in actions ensures !Less(a.weight, b.weight) {
      assert b in multiset(actions);
      var j :| 0 <= j < |sorted| && sorted[j] == b;
      if j > 0 {
        assert !Less(sorted[0].weight, sorted[j].weight);
      }
    }
  }
}
