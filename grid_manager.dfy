/**
 * GridManager: wires every tile to its neighbours through getTileByIndex,
 * places objects on tiles, and answers range queries (which tiles lie within
 * a number of steps of a tile), optionally keeping only the tiles that hold
 * an enemy unit.
 */
module GridManagement {
  import opened Options
  import opened Grids
  import opened Tiles
  import opened AStar
  import opened Units

  // ---------------------------------------------------------------------------
  // Neighbour wiring
  // ---------------------------------------------------------------------------

  /** The flat index id as a one-tile list when it is one of the count tiles, else nothing. */
  function Probe(id: int, count: nat): seq<TileId>
  {
    if 0 <= id < count then [id] else []
  }

  /**
   * The neighbour list of tile k as the wiring builds it: the tiles at flat
   * index k + 1, k - 1, k + length and k - length, in that order, each when
   * it exists. Only the flat index is bounds-checked.
   */
  function Wiring(k: nat, length: nat, count: nat): seq<TileId>
  {
    Probe(k + 1, count) + Probe(k - 1, count) + Probe(k + length, count) + Probe(k - length, count)
  }

  /** A wired list has at most four entries, all of them tiles. */
  lemma WiringBounded(k: nat, length: nat, count: nat)
    ensures |Wiring(k, length, count)| <= 4
    ensures forall m :: m in Wiring(k, length, count) ==> m < count
  {
  }

  /** The wired neighbour relation is symmetric. */
  lemma WiringSymmetric(a: nat, b: nat, length: nat, count: nat)
    requires a < count && b < count
    ensures b in Wiring(a, length, count) <==> a in Wiring(b, length, count)
  {
    assert b in Wiring(a, length, count) <==> b == a + 1 || b == a - 1 || b == a + length || b == a - length;
    assert a in Wiring(b, length, count) <==> a == b + 1 || a == b - 1 || a == b + length || a == b - length;
  }

  /**
   * The last tile of column x (row length - 1) is wired to the first tile of
   * column x + 1 (row 0), which is not adjacent to it on the board.
   */
  lemma RowEdgeWraps(x: nat, width: nat, length: nat)
    requires length >= 2 && x + 1 < width
    ensures var last := x * length + (length - 1);
            (x + 1) * length + 0 in Wiring(last, length, width * length)
  {
    MulStep(x + 1, width, length);
    assert (x + 1) * length == x * length + length;
  }

  // ---------------------------------------------------------------------------
  // The range query as a function of getDistance's answers
  // ---------------------------------------------------------------------------

  /** The largest distance the range query may write: dist, but 1 for the first ring even when dist < 1. */
  function MaxWritten(dist: int): int
  {
    if dist >= 1 then dist else 1
  }

  /** Some walk from src reaches t in at most dist steps, entering occupied tiles only when walkableOnly is off or at t. */
  ghost predicate WithinSteps<O>(objects: seq<Option<O>>, nbrs: seq<seq<TileId>>, src: TileId, t: TileId,
                                 walkableOnly: bool, dist: int)
  {
    exists w :: IsWalk(objects, nbrs, w, Some(t), walkableOnly) && w[0] == src && w[|w| - 1] == t && |w| <= dist + 1
  }

  /** The result invariant of the range query: distinct tiles other than src, free in walkable mode, each within dist steps. */
  ghost predicate RangeResult<O>(objects: seq<Option<O>>, nbrs: seq<seq<TileId>>, src: TileId,
                                 xs: seq<TileId>, walkableOnly: bool, dist: int)
  {
    && (forall i, j :: 0 <= i < j < |xs| ==> xs[i] != xs[j])
    && forall j :: 0 <= j < |xs| ==>
         && xs[j] != src && xs[j] < |objects|
         && (walkableOnly ==> objects[xs[j]].None?)
         && WithinSteps(objects, nbrs, src, xs[j], walkableOnly, dist)
  }

  /** Tile t is one step of the range query from f: a neighbour of f, free when walkableOnly. */
  ghost predicate Enters<O>(objects: seq<Option<O>>, nbrs: seq<seq<TileId>>, f: TileId, t: TileId, walkableOnly: bool)
  {
    f < |nbrs| && t in nbrs[f] && t < |objects| && (walkableOnly ==> objects[t].None?)
  }

  /**
   * d is an answer getDistance gives for target t: -1 exactly when no walk
   * from src reaches t, else the length of such a walk that repeats no tile;
   * and 1 when t is a neighbour src lists.
   */
  ghost predicate DistanceAnswer<O>(objects: seq<Option<O>>, nbrs: seq<seq<TileId>>, src: TileId, t: TileId,
                                    walkableOnly: bool, d: int)
  {
    && (d == -1 <==> !Reachable(objects, nbrs, src, t, Some(t), walkableOnly))
    && (d != -1 ==> d >= 0 && exists w :: IsWalk(objects, nbrs, w, Some(t), walkableOnly) && Simple(w)
                                         && |w| == d + 1 && w[0] == src && w[|w| - 1] == t)
    && (src < |nbrs| && src != t && t in nbrs[src] ==> d == 1)
  }

  /** The state of the query after some iterations: the tiles of the open ring and the tiles closed so far. */
  datatype RangeLevel = RangeLevel(ring: set<TileId>, closed: set<TileId>)

  /** The tiles of a ring getDistance is asked about: those other than src that are not closed yet. */
  ghost function Asked(lv: RangeLevel, src: TileId): set<TileId>
  {
    set t | t in lv.ring && t != src && t !in lv.closed
  }

  /**
   * The query after |answers| iterations, answers[i] mapping each tile asked
   * in iteration i to getDistance's answer. The first ring is every tile src
   * steps to (none when dist < 1). Ring i + 1 is every tile that a tile of
   * ring i steps to and that is neither in ring i nor closed, provided
   * i + 2 <= dist. Iteration i closes the asked tiles of ring i whose answer
   * lies in [0, dist].
   */
  ghost function Level<O>(objects: seq<Option<O>>, nbrs: seq<seq<TileId>>, src: TileId, dist: int, walkableOnly: bool,
                          answers: seq<map<TileId, int>>): RangeLevel
    decreases |answers|
  {
    if answers == [] then
      RangeLevel(if dist >= 1 then set t: TileId | t < |objects| && Enters(objects, nbrs, src, t, walkableOnly) else {}, {})
    else
      var i := |answers| - 1;
      var lv := Level(objects, nbrs, src, dist, walkableOnly, answers[..i]);
      var a := answers[i];
      RangeLevel(
        if i + 2 <= dist then
          set t: TileId | t < |objects| && t !in lv.closed && t !in lv.ring
                          && exists f :: f in lv.ring && Enters(objects, nbrs, f, t, walkableOnly)
        else {},
        lv.closed + set t | t in Asked(lv, src) && t in a && 0 <= a[t] <= dist)
  }

  /** answers are getDistance answers for exactly the tiles each iteration asks about. */
  ghost predicate Answered<O>(objects: seq<Option<O>>, nbrs: seq<seq<TileId>>, src: TileId, dist: int, walkableOnly: bool,
                              answers: seq<map<TileId, int>>)
    decreases |answers|
  {
    answers == [] ||
    var i := |answers| - 1;
    var lv := Level(objects, nbrs, src, dist, walkableOnly, answers[..i]);
    && Answered(objects, nbrs, src, dist, walkableOnly, answers[..i])
    && (forall t :: t in answers[i] <==> t in Asked(lv, src))
    && forall t :: t in answers[i] ==> DistanceAnswer(objects, nbrs, src, t, walkableOnly, answers[i][t])
  }

  /**
   * xs is the list getTilesWithinDistance closes in its max(dist, 0)
   * iterations when getDistance answers as answers say: the tiles of Level,
   * each once, in the order of LevelOrder.
   */
  ghost predicate RangeAnswer<O>(objects: seq<Option<O>>, nbrs: seq<seq<TileId>>, src: TileId, dist: int, walkableOnly: bool,
                                 answers: seq<map<TileId, int>>, xs: seq<TileId>)
  {
    && |answers| == (if dist > 0 then dist else 0)
    && Answered(objects, nbrs, src, dist, walkableOnly, answers)
    && (forall t :: t in xs <==> t in Level(objects, nbrs, src, dist, walkableOnly, answers).closed)
    && ClosedInOrder(xs, objects, nbrs, src, dist, walkableOnly, answers)
  }

  /**
   * xs is the close list LevelOrder gives for answers; kept one recursive
   * step away (as PickedAtDepth is) so that the order is unfolded only where
   * a proof asks for it, by ClosedInOrderIs.
   *
   * About the XAt(depth, ...) predicates of this module and of AI: depth is
   * not part of the modelled state. It counts unfolding steps only. X is
   * defined as XAt at a small depth, and XAt at depth 0 is the definition,
   * so the verifier does not unfold X inside a whole method's proof. A lemma
   * XIs unfolds it (and XIntro, where present, folds it) at the one place a
   * proof needs it. Those lemmas state the definition and nothing more.
   */
  ghost predicate ClosedInOrder<O>(xs: seq<TileId>, objects: seq<Option<O>>, nbrs: seq<seq<TileId>>, src: TileId,
                                   dist: int, walkableOnly: bool, answers: seq<map<TileId, int>>)
  {
    ClosedInOrderAt(3, xs, objects, nbrs, src, dist, walkableOnly, answers)
  }

  ghost predicate ClosedInOrderAt<O>(depth: nat, xs: seq<TileId>, objects: seq<Option<O>>, nbrs: seq<seq<TileId>>,
                                     src: TileId, dist: int, walkableOnly: bool, answers: seq<map<TileId, int>>)
    decreases depth
  {
    if depth == 0 then xs == LevelOrder(objects, nbrs, src, dist, walkableOnly, answers).closed
    else ClosedInOrderAt(depth - 1, xs, objects, nbrs, src, dist, walkableOnly, answers)
  }

  /** A result of the range query holds each tile once. */
  lemma RangeDistinct<O>(objects: seq<Option<O>>, nbrs: seq<seq<TileId>>, src: TileId, dist: int, walkableOnly: bool,
                         xs: seq<TileId>)
    requires InRange(objects, nbrs, src, dist, walkableOnly, xs)
    ensures Distinct(xs)
  {
    InRangeIs(objects, nbrs, src, dist, walkableOnly, xs);
    var answers :| RangeAnswer(objects, nbrs, src, dist, walkableOnly, answers, xs);
    ClosedInOrderIs(xs, objects, nbrs, src, dist, walkableOnly, answers);
  }

  /** ClosedInOrder, unfolded. */
  lemma ClosedInOrderIs<O>(xs: seq<TileId>, objects: seq<Option<O>>, nbrs: seq<seq<TileId>>, src: TileId,
                           dist: int, walkableOnly: bool, answers: seq<map<TileId, int>>)
    ensures ClosedInOrder(xs, objects, nbrs, src, dist, walkableOnly, answers)
            <==> xs == LevelOrder(objects, nbrs, src, dist, walkableOnly, answers).closed
  {
    assert ClosedInOrderAt(3, xs, objects, nbrs, src, dist, walkableOnly, answers)
       <==> ClosedInOrderAt(2, xs, objects, nbrs, src, dist, walkableOnly, answers);
    assert ClosedInOrderAt(2, xs, objects, nbrs, src, dist, walkableOnly, answers)
       <==> ClosedInOrderAt(1, xs, objects, nbrs, src, dist, walkableOnly, answers);
    assert ClosedInOrderAt(1, xs, objects, nbrs, src, dist, walkableOnly, answers)
       <==> ClosedInOrderAt(0, xs, objects, nbrs, src, dist, walkableOnly, answers);
  }

  /**
   * xs is a result getTilesWithinDistance gives on this board, for the
   * answers getDistance gave it; kept one recursive step away (as
   * ClosedInOrder is) so that callers pass it along unexpanded.
   */
  ghost predicate InRange<O>(objects: seq<Option<O>>, nbrs: seq<seq<TileId>>, src: TileId, dist: int, walkableOnly: bool,
                             xs: seq<TileId>)
  {
    InRangeAt(3, objects, nbrs, src, dist, walkableOnly, xs)
  }

  ghost predicate InRangeAt<O>(depth: nat, objects: seq<Option<O>>, nbrs: seq<seq<TileId>>, src: TileId, dist: int,
                               walkableOnly: bool, xs: seq<TileId>)
    decreases depth
  {
    if depth == 0 then exists answers :: RangeAnswer(objects, nbrs, src, dist, walkableOnly, answers, xs)
    else InRangeAt(depth - 1, objects, nbrs, src, dist, walkableOnly, xs)
  }

  /** InRange, unfolded. */
  lemma InRangeIs<O>(objects: seq<Option<O>>, nbrs: seq<seq<TileId>>, src: TileId, dist: int, walkableOnly: bool,
                     xs: seq<TileId>)
    ensures InRange(objects, nbrs, src, dist, walkableOnly, xs)
            <==> exists answers :: RangeAnswer(objects, nbrs, src, dist, walkableOnly, answers, xs)
  {
    assert InRangeAt(3, objects, nbrs, src, dist, walkableOnly, xs) <==> InRangeAt(2, objects, nbrs, src, dist, walkableOnly, xs);
    assert InRangeAt(2, objects, nbrs, src, dist, walkableOnly, xs) <==> InRangeAt(1, objects, nbrs, src, dist, walkableOnly, xs);
    assert InRangeAt(1, objects, nbrs, src, dist, walkableOnly, xs) <==> InRangeAt(0, objects, nbrs, src, dist, walkableOnly, xs);
  }

  // ---------------------------------------------------------------------------
  // The order of the range query's lists
  // ---------------------------------------------------------------------------

  /** No tile occurs twice in xs. */
  ghost predicate Distinct(xs: seq<TileId>)
  {
    forall i, j :: 0 <= i < j < |xs| ==> xs[i] != xs[j]
  }

  /** The neighbour list the query reads for tile f: its free neighbours in walkable mode, else all of them. */
  ghost function Stepped<O>(objects: seq<Option<O>>, nbrs: seq<seq<TileId>>, f: TileId, walkableOnly: bool): seq<TileId>
  {
    if f >= |nbrs| then [] else if walkableOnly then Unoccupied(nbrs[f], objects) else nbrs[f]
  }

  /**
   * acc extended, in the order of ns, by each tile of ns that is in neither
   * closed nor ring and is not kept already.
   */
  ghost function AppendNew(acc: seq<TileId>, ns: seq<TileId>, closed: seq<TileId>, ring: seq<TileId>): (r: seq<TileId>)
    ensures Distinct(acc) ==> Distinct(r)
    decreases |ns|
  {
    if ns == [] then acc
    else
      var r := AppendNew(acc, ns[..|ns| - 1], closed, ring);
      var t := ns[|ns| - 1];
      if t !in closed && t !in ring && t !in r then r + [t] else r
  }

  /**
   * xs is what a loop over ns builds from acc: AppendNew(acc, ns, closed,
   * ring) when pushing holds, acc itself otherwise. The definition sits one
   * recursive step away, as PickedAtDepth does, so that loops carry it as is.
   */
  ghost predicate Appended(xs: seq<TileId>, acc: seq<TileId>, ns: seq<TileId>, closed: seq<TileId>, ring: seq<TileId>,
                           pushing: bool)
  {
    AppendedAt(3, xs, acc, ns, closed, ring, pushing)
  }

  ghost predicate AppendedAt(depth: nat, xs: seq<TileId>, acc: seq<TileId>, ns: seq<TileId>, closed: seq<TileId>,
                             ring: seq<TileId>, pushing: bool)
    decreases depth
  {
    if depth == 0 then xs == if pushing then AppendNew(acc, ns, closed, ring) else acc
    else AppendedAt(depth - 1, xs, acc, ns, closed, ring, pushing)
  }

  /** Appended, unfolded. */
  lemma AppendedIs(xs: seq<TileId>, acc: seq<TileId>, ns: seq<TileId>, closed: seq<TileId>, ring: seq<TileId>, pushing: bool)
    ensures Appended(xs, acc, ns, closed, ring, pushing) <==> xs == if pushing then AppendNew(acc, ns, closed, ring) else acc
  {
    assert AppendedAt(3, xs, acc, ns, closed, ring, pushing) <==> AppendedAt(2, xs, acc, ns, closed, ring, pushing);
    assert AppendedAt(2, xs, acc, ns, closed, ring, pushing) <==> AppendedAt(1, xs, acc, ns, closed, ring, pushing);
    assert AppendedAt(1, xs, acc, ns, closed, ring, pushing) <==> AppendedAt(0, xs, acc, ns, closed, ring, pushing);
  }

  /** AppendNew keeps acc and adds the tiles of ns that are neither closed nor in the ring. */
  lemma {:induction false} AppendNewMembers(acc: seq<TileId>, ns: seq<TileId>, closed: seq<TileId>, ring: seq<TileId>, t: TileId)
    ensures t in AppendNew(acc, ns, closed, ring) <==> t in acc || (t in ns && t !in closed && t !in ring)
    decreases |ns|
  {
    if ns != [] {
      AppendNewMembers(acc, ns[..|ns| - 1], closed, ring, t);
      assert ns == ns[..|ns| - 1] + [ns[|ns| - 1]];
    }
  }

  /** What a loop that keeps Appended holds at its end. */
  lemma AppendedMembers(xs: seq<TileId>, acc: seq<TileId>, ns: seq<TileId>, closed: seq<TileId>, ring: seq<TileId>, pushing: bool)
    requires Appended(xs, acc, ns, closed, ring, pushing)
    ensures forall t :: t in xs <==> t in acc || (pushing && t in ns && t !in closed && t !in ring)
  {
    AppendedIs(xs, acc, ns, closed, ring, pushing);
    forall t {
      AppendNewMembers(acc, ns, closed, ring, t);
    }
  }

  /** Before the loop: nothing of ns is seen, and the list is acc. */
  lemma AppendedStart(acc: seq<TileId>, closed: seq<TileId>, ring: seq<TileId>, pushing: bool)
    ensures Appended(acc, acc, [], closed, ring, pushing)
  {
    AppendedIs(acc, acc, [], closed, ring, pushing);
  }

  /**
   * One step: if cur is the list after the first m tiles of ns, and next adds
   * tile ns[m] when pushing and it is new, then next is the list after m + 1.
   */
  lemma AppendedStep(acc: seq<TileId>, ns: seq<TileId>, m: nat, closed: seq<TileId>, ring: seq<TileId>, pushing: bool,
                     cur: seq<TileId>, next: seq<TileId>)
    requires m < |ns| && Appended(cur, acc, ns[..m], closed, ring, pushing)
    requires next == if pushing && ns[m] !in closed && ns[m] !in ring && ns[m] !in cur then cur + [ns[m]] else cur
    ensures Appended(next, acc, ns[..m + 1], closed, ring, pushing)
  {
    AppendedIs(cur, acc, ns[..m], closed, ring, pushing);
    assert ns[..m + 1][..m] == ns[..m];
    AppendedIs(next, acc, ns[..m + 1], closed, ring, pushing);
  }



  /**
   * The next ring in the order the query builds it: the tiles of froms in
   * turn, each adding the new tiles it steps to in its neighbour-list order.
   */
  ghost function RingOrder<O>(objects: seq<Option<O>>, nbrs: seq<seq<TileId>>, froms: seq<TileId>, ring: seq<TileId>,
                              closed: seq<TileId>, walkableOnly: bool): (r: seq<TileId>)
    ensures Distinct(r)
    decreases |froms|
  {
    if froms == [] then []
    else
      AppendNew(RingOrder(objects, nbrs, froms[..|froms| - 1], ring, closed, walkableOnly),
                Stepped(objects, nbrs, froms[|froms| - 1], walkableOnly), closed, ring)
  }

  /**
   * xs is what a loop over the tiles froms of a ring builds: RingOrder when
   * pushing holds, [] otherwise; kept one recursive step away as Appended is.
   */
  ghost predicate Ringed<O>(xs: seq<TileId>, objects: seq<Option<O>>, nbrs: seq<seq<TileId>>, froms: seq<TileId>,
                            ring: seq<TileId>, closed: seq<TileId>, walkableOnly: bool, pushing: bool)
  {
    RingedAt(3, xs, objects, nbrs, froms, ring, closed, walkableOnly, pushing)
  }

  ghost predicate RingedAt<O>(depth: nat, xs: seq<TileId>, objects: seq<Option<O>>, nbrs: seq<seq<TileId>>,
                              froms: seq<TileId>, ring: seq<TileId>, closed: seq<TileId>, walkableOnly: bool, pushing: bool)
    decreases depth
  {
    if depth == 0 then xs == if pushing then RingOrder(objects, nbrs, froms, ring, closed, walkableOnly) else []
    else RingedAt(depth - 1, xs, objects, nbrs, froms, ring, closed, walkableOnly, pushing)
  }

  /** Ringed, unfolded. */
  lemma RingedIs<O>(xs: seq<TileId>, objects: seq<Option<O>>, nbrs: seq<seq<TileId>>, froms: seq<TileId>,
                    ring: seq<TileId>, closed: seq<TileId>, walkableOnly: bool, pushing: bool)
    ensures Ringed(xs, objects, nbrs, froms, ring, closed, walkableOnly, pushing)
            <==> xs == if pushing then RingOrder(objects, nbrs, froms, ring, closed, walkableOnly) else []
  {
    assert RingedAt(3, xs, objects, nbrs, froms, ring, closed, walkableOnly, pushing)
       <==> RingedAt(2, xs, objects, nbrs, froms, ring, closed, walkableOnly, pushing);
    assert RingedAt(2, xs, objects, nbrs, froms, ring, closed, walkableOnly, pushing)
       <==> RingedAt(1, xs, objects, nbrs, froms, ring, closed, walkableOnly, pushing);
    assert RingedAt(1, xs, objects, nbrs, froms, ring, closed, walkableOnly, pushing)
       <==> RingedAt(0, xs, objects, nbrs, froms, ring, closed, walkableOnly, pushing);
  }

  /**
   * One step of the ring loop: when cur is the list after the first n tiles
   * of froms and next is cur with the new neighbours of froms[n] appended,
   * next is the list after n + 1 tiles.
   */
  lemma RingedStep<O>(objects: seq<Option<O>>, nbrs: seq<seq<TileId>>, froms: seq<TileId>, n: nat, ring: seq<TileId>,
                      closed: seq<TileId>, walkableOnly: bool, pushing: bool, cur: seq<TileId>, next: seq<TileId>)
    requires n < |froms| && Ringed(cur, objects, nbrs, froms[..n], ring, closed, walkableOnly, pushing)
    requires Appended(next, cur, Stepped(objects, nbrs, froms[n], walkableOnly), closed, ring, pushing)
    ensures Ringed(next, objects, nbrs, froms[..n + 1], ring, closed, walkableOnly, pushing)
  {
    RingedIs(cur, objects, nbrs, froms[..n], ring, closed, walkableOnly, pushing);
    AppendedIs(next, cur, Stepped(objects, nbrs, froms[n], walkableOnly), closed, ring, pushing);
    assert froms[..n + 1][..n] == froms[..n];
    RingedIs(next, objects, nbrs, froms[..n + 1], ring, closed, walkableOnly, pushing);
  }

  /**
   * closed extended, in the order of ring, by each tile of ring other than
   * src that is not closed yet and whose answer in a lies in [0, dist].
   */
  ghost function CloseOrder(closed: seq<TileId>, ring: seq<TileId>, src: TileId, a: map<TileId, int>, dist: int): (r: seq<TileId>)
    ensures Distinct(closed) ==> Distinct(r)
    decreases |ring|
  {
    if ring == [] then closed
    else
      var c := CloseOrder(closed, ring[..|ring| - 1], src, a, dist);
      var t := ring[|ring| - 1];
      if t != src && t !in c && t in a && 0 <= a[t] <= dist then c + [t] else c
  }

  /** CloseOrder reads the answers of the tiles of ring only. */
  lemma {:induction false} CloseOrderFrame(closed: seq<TileId>, ring: seq<TileId>, src: TileId, a: map<TileId, int>,
                                           a': map<TileId, int>, dist: int)
    requires forall t :: t in ring ==> (t in a <==> t in a') && (t in a ==> a[t] == a'[t])
    ensures CloseOrder(closed, ring, src, a, dist) == CloseOrder(closed, ring, src, a', dist)
    decreases |ring|
  {
    if ring != [] {
      CloseOrderFrame(closed, ring[..|ring| - 1], src, a, a', dist);
    }
  }

  /** The open ring and the closed list of the query, as lists. */
  datatype RangeOrder = RangeOrder(ring: seq<TileId>, closed: seq<TileId>)

  /**
   * Level with its lists in the order the query builds them: the first ring
   * in the order src lists its neighbours; each later ring tile by tile of
   * the ring before (RingOrder); each iteration appends the tiles it closes
   * in ring order (CloseOrder). Neither list ever holds a tile twice.
   */
  ghost function LevelOrder<O>(objects: seq<Option<O>>, nbrs: seq<seq<TileId>>, src: TileId, dist: int, walkableOnly: bool,
                               answers: seq<map<TileId, int>>): (lo: RangeOrder)
    ensures Distinct(lo.ring) && Distinct(lo.closed)
    decreases |answers|
  {
    if answers == [] then
      RangeOrder(if dist >= 1 then AppendNew([], Stepped(objects, nbrs, src, walkableOnly), [], []) else [], [])
    else
      var i := |answers| - 1;
      var lo := LevelOrder(objects, nbrs, src, dist, walkableOnly, answers[..i]);
      RangeOrder(if i + 2 <= dist then RingOrder(objects, nbrs, lo.ring, lo.ring, lo.closed, walkableOnly) else [],
                 CloseOrder(lo.closed, lo.ring, src, answers[i], dist))
  }

  /** On a board of two tiles wired to each other, no range result repeats a tile. */
  lemma NoTileTwice()
    ensures !InRange<int>([None, None], [[1], [0]], 0, 1, false, [1, 1])
  {
    if InRange<int>([None, None], [[1], [0]], 0, 1, false, [1, 1]) {
      assert !Distinct([1, 1]) by { assert [1, 1][0] == [1, 1][1]; }
      RangeDistinct<int>([None, None], [[1], [0]], 0, 1, false, [1, 1]);
    }
  }

  /** Closing the ring [1, 2] keeps tile 1 ahead of tile 2, whatever getDistance answers. */
  lemma CloseOrderOfTwo(a: map<TileId, int>)
    ensures CloseOrder([], [1, 2], 0, a, 1) != [2, 1]
  {
    assert [1, 2][..1] == [1] && [1][..0] == [];
    var c1 := CloseOrder([], [1], 0, a, 1);
    assert CloseOrder([], [], 0, a, 1) == [];
    assert c1 == [] || c1 == [1];
    var c2 := CloseOrder([], [1, 2], 0, a, 1);
    assert c2 == c1 || c2 == c1 + [2];
    if c1 == [] {
      assert c2 == [] || c2 == [2];
    } else {
      assert c1 == [1] && c2[0] == 1;
    }
  }

  /** Tile 0 listing its neighbours as 1 then 2 makes the first ring [1, 2]. */
  lemma FirstRingOfTwo()
    ensures AppendNew([], Stepped<int>([None, None, None], [[1, 2], [0], [0]], 0, false), [], []) == [1, 2]
  {
    assert Stepped<int>([None, None, None], [[1, 2], [0], [0]], 0, false) == [1, 2];
    assert [1, 2][..1] == [1] && [1][..0] == [];
    assert AppendNew([], [], [], []) == [];
    assert AppendNew([], [1], [], []) == [1];
  }

  /** When src lists its neighbours as 1 then 2, the range query within 1 step never answers [2, 1]. */
  lemma NeighbourOrderKept()
    ensures !InRange<int>([None, None, None], [[1, 2], [0], [0]], 0, 1, false, [2, 1])
  {
    var objects: seq<Option<int>>, nbrs: seq<seq<TileId>> := [None, None, None], [[1, 2], [0], [0]];
    InRangeIs(objects, nbrs, 0, 1, false, [2, 1]);
    if InRange(objects, nbrs, 0, 1, false, [2, 1]) {
      var answers :| RangeAnswer(objects, nbrs, 0, 1, false, answers, [2, 1]);
      ClosedInOrderIs([2, 1], objects, nbrs, 0, 1, false, answers);
      assert answers[..0] == [];
      FirstRingOfTwo();
      assert LevelOrder(objects, nbrs, 0, 1, false, []).ring == [1, 2];
      assert LevelOrder(objects, nbrs, 0, 1, false, answers).closed == CloseOrder([], [1, 2], 0, answers[0], 1);
      CloseOrderOfTwo(answers[0]);
    }
  }

  /** The answers given up to iteration j are answers for the first j iterations. */
  lemma {:induction false} AnsweredPrefix<O>(objects: seq<Option<O>>, nbrs: seq<seq<TileId>>, src: TileId, dist: int,
                                             walkableOnly: bool, answers: seq<map<TileId, int>>, j: nat)
    requires Answered(objects, nbrs, src, dist, walkableOnly, answers) && j <= |answers|
    ensures Answered(objects, nbrs, src, dist, walkableOnly, answers[..j])
    decreases |answers| - j
  {
    if j < |answers| {
      var i := |answers| - 1;
      assert answers[..i][..j] == answers[..j];
      AnsweredPrefix(objects, nbrs, src, dist, walkableOnly, answers[..i], j);
    } else {
      assert answers[..j] == answers;
    }
  }

  /** A tile closed after j iterations stays closed. */
  lemma {:induction false} ClosedGrows<O>(objects: seq<Option<O>>, nbrs: seq<seq<TileId>>, src: TileId, dist: int,
                                          walkableOnly: bool, answers: seq<map<TileId, int>>, j: nat, t: TileId)
    requires j <= |answers| && t in Level(objects, nbrs, src, dist, walkableOnly, answers[..j]).closed
    ensures t in Level(objects, nbrs, src, dist, walkableOnly, answers).closed
    decreases |answers| - j
  {
    if j < |answers| {
      var i := |answers| - 1;
      assert answers[..i][..j] == answers[..j];
      ClosedGrows(objects, nbrs, src, dist, walkableOnly, answers[..i], j, t);
    } else {
      assert answers[..j] == answers;
    }
  }

  /** A closed tile was in the ring of an earlier iteration. */
  lemma {:induction false} ClosedFromRing<O>(objects: seq<Option<O>>, nbrs: seq<seq<TileId>>, src: TileId, dist: int,
                                             walkableOnly: bool, answers: seq<map<TileId, int>>, t: TileId)
    requires t in Level(objects, nbrs, src, dist, walkableOnly, answers).closed
    ensures exists m :: 0 <= m < |answers| && t in Level(objects, nbrs, src, dist, walkableOnly, answers[..m]).ring
  {
    var i := |answers| - 1;
    var lv := Level(objects, nbrs, src, dist, walkableOnly, answers[..i]);
    if t in lv.closed {
      ClosedFromRing(objects, nbrs, src, dist, walkableOnly, answers[..i], t);
      var m :| 0 <= m < i && t in Level(objects, nbrs, src, dist, walkableOnly, answers[..i][..m]).ring;
      assert answers[..i][..m] == answers[..m];
    } else {
      assert t in Level(objects, nbrs, src, dist, walkableOnly, answers[..i]).ring;
    }
  }

  /** A walk that only enters free tiles (or ignores occupancy) may also enter an occupied last tile. */
  lemma WalkWithExempt<O>(objects: seq<Option<O>>, nbrs: seq<seq<TileId>>, w: seq<TileId>, walkableOnly: bool, t: TileId)
    requires IsWalk(objects, nbrs, w, None, walkableOnly)
    ensures IsWalk(objects, nbrs, w, Some(t), walkableOnly)
  {
    forall i | 0 <= i < |w| - 1
      ensures StepAt(objects, nbrs, w, i, Some(t), walkableOnly)
    {
      assert StepAt(objects, nbrs, w, i, None, walkableOnly);
    }
  }

  /**
   * The end t of a walk of k >= 1 steps from src, entering only tiles the
   * query may step to, lies in a ring of an iteration before k (when
   * t != src and k is at most the number of iterations and at most dist).
   */
  lemma {:induction false} WalkInRing<O>(objects: seq<Option<O>>, nbrs: seq<seq<TileId>>, src: TileId, dist: int,
                                         walkableOnly: bool, answers: seq<map<TileId, int>>, w: seq<TileId>)
    requires IsWalk(objects, nbrs, w, None, walkableOnly) && w[0] == src && w[|w| - 1] != src
    requires |w| - 1 <= |answers| && |w| - 1 <= dist
    ensures exists j :: 0 <= j < |w| - 1 && w[|w| - 1] in Level(objects, nbrs, src, dist, walkableOnly, answers[..j]).ring
  {
    var k := |w| - 1;
    var t, u := w[k], w[k - 1];
    assert StepAt(objects, nbrs, w, k - 1, None, walkableOnly);
    assert Enters(objects, nbrs, u, t, walkableOnly);
    if u == src {
      assert answers[..0] == [];
      assert t in Level(objects, nbrs, src, dist, walkableOnly, answers[..0]).ring;
    } else {
      var w' := w[..k];
      assert IsWalk(objects, nbrs, w', None, walkableOnly) by {
        forall i | 0 <= i < |w'| - 1
          ensures StepAt(objects, nbrs, w', i, None, walkableOnly)
        {
          assert StepAt(objects, nbrs, w, i, None, walkableOnly);
        }
      }
      WalkInRing(objects, nbrs, src, dist, walkableOnly, answers, w');
      var j' :| 0 <= j' < k - 1 && u in Level(objects, nbrs, src, dist, walkableOnly, answers[..j']).ring;
      var lv := Level(objects, nbrs, src, dist, walkableOnly, answers[..j']);
      if t in lv.closed {
        ClosedFromRing(objects, nbrs, src, dist, walkableOnly, answers[..j'], t);
        var m :| 0 <= m < j' && t in Level(objects, nbrs, src, dist, walkableOnly, answers[..j'][..m]).ring;
        assert answers[..j'][..m] == answers[..m];
      } else if t !in lv.ring {
        assert answers[..j' + 1][..j'] == answers[..j'];
        assert t in Level(objects, nbrs, src, dist, walkableOnly, answers[..j' + 1]).ring;
      }
    }
  }

  /** A tile of the result lies within dist steps of src, is not src and is free in walkable mode. */
  lemma RangeSound<O>(objects: seq<Option<O>>, nbrs: seq<seq<TileId>>, src: TileId, dist: int, walkableOnly: bool,
                      answers: seq<map<TileId, int>>, xs: seq<TileId>, t: TileId)
    requires RangeAnswer(objects, nbrs, src, dist, walkableOnly, answers, xs) && t in xs
    ensures t != src && t < |objects| && (walkableOnly ==> objects[t].None?)
    ensures WithinSteps(objects, nbrs, src, t, walkableOnly, dist)
  {
    ClosedFromRing(objects, nbrs, src, dist, walkableOnly, answers, t);
    var m :| 0 <= m < |answers| && t in Level(objects, nbrs, src, dist, walkableOnly, answers[..m]).ring;
    ClosedAnswer(objects, nbrs, src, dist, walkableOnly, answers, t);
  }

  /** A closed tile is not src and was closed on an answer within [0, dist]. */
  lemma {:induction false} ClosedAnswer<O>(objects: seq<Option<O>>, nbrs: seq<seq<TileId>>, src: TileId, dist: int,
                                           walkableOnly: bool, answers: seq<map<TileId, int>>, t: TileId)
    requires Answered(objects, nbrs, src, dist, walkableOnly, answers)
    requires t in Level(objects, nbrs, src, dist, walkableOnly, answers).closed
    ensures t != src && WithinSteps(objects, nbrs, src, t, walkableOnly, dist)
  {
    var i := |answers| - 1;
    var lv := Level(objects, nbrs, src, dist, walkableOnly, answers[..i]);
    if t in lv.closed {
      ClosedAnswer(objects, nbrs, src, dist, walkableOnly, answers[..i], t);
    } else {
      assert t in answers[i] && DistanceAnswer(objects, nbrs, src, t, walkableOnly, answers[i][t]);
    }
  }

  /**
   * The query misses no tile near src unless getDistance overshoots: a tile
   * t other than src that a walk of at most dist steps through tiles the
   * query may enter reaches is in the result, or some iteration asked
   * getDistance about t and got an answer above dist.
   */
  lemma RangeCovers<O>(objects: seq<Option<O>>, nbrs: seq<seq<TileId>>, src: TileId, dist: int, walkableOnly: bool,
                       answers: seq<map<TileId, int>>, xs: seq<TileId>, w: seq<TileId>)
    requires RangeAnswer(objects, nbrs, src, dist, walkableOnly, answers, xs)
    requires IsWalk(objects, nbrs, w, None, walkableOnly) && w[0] == src && w[|w| - 1] != src && |w| <= dist + 1
    ensures var t := w[|w| - 1];
            t in xs || exists j :: 0 <= j < |answers| && t in answers[j] && answers[j][t] > dist
  {
    var t := w[|w| - 1];
    WalkInRing(objects, nbrs, src, dist, walkableOnly, answers, w);
    var j :| 0 <= j < |w| - 1 && t in Level(objects, nbrs, src, dist, walkableOnly, answers[..j]).ring;
    var lv := Level(objects, nbrs, src, dist, walkableOnly, answers[..j]);
    if t in lv.closed {
      ClosedGrows(objects, nbrs, src, dist, walkableOnly, answers, j, t);
    } else {
      AskedAnswer(objects, nbrs, src, dist, walkableOnly, answers, j, t);
      WalkWithExempt(objects, nbrs, w, walkableOnly, t);
      if answers[j][t] <= dist {
        ClosedOnAnswer(objects, nbrs, src, dist, walkableOnly, answers, j, t);
      }
    }
  }

  /**
   * With at least one iteration, the query keeps every tile src steps to:
   * each is in the first ring, is asked about in the first iteration and is
   * answered 1 by getDistance.
   */
  lemma RangeCoversNeighbours<O>(objects: seq<Option<O>>, nbrs: seq<seq<TileId>>, src: TileId, dist: int, walkableOnly: bool,
                                 answers: seq<map<TileId, int>>, xs: seq<TileId>, t: TileId)
    requires RangeAnswer(objects, nbrs, src, dist, walkableOnly, answers, xs)
    requires dist >= 1 && t != src && t < |objects| && Enters(objects, nbrs, src, t, walkableOnly)
    ensures t in xs
  {
    assert answers[..0] == [];
    assert t in Asked(Level(objects, nbrs, src, dist, walkableOnly, answers[..0]), src);
    AskedAnswer(objects, nbrs, src, dist, walkableOnly, answers, 0, t);
    ClosedOnAnswer(objects, nbrs, src, dist, walkableOnly, answers, 0, t);
  }

  /** Iteration j asks getDistance about every asked tile of its ring. */
  lemma AskedAnswer<O>(objects: seq<Option<O>>, nbrs: seq<seq<TileId>>, src: TileId, dist: int, walkableOnly: bool,
                       answers: seq<map<TileId, int>>, j: nat, t: TileId)
    requires Answered(objects, nbrs, src, dist, walkableOnly, answers) && j < |answers|
    requires t in Asked(Level(objects, nbrs, src, dist, walkableOnly, answers[..j]), src)
    ensures t in answers[j] && DistanceAnswer(objects, nbrs, src, t, walkableOnly, answers[j][t])
  {
    AnsweredPrefix(objects, nbrs, src, dist, walkableOnly, answers, j + 1);
    assert answers[..j + 1][..j] == answers[..j];
    assert answers[..j + 1][j] == answers[j];
  }

  /** An asked tile answered within [0, dist] is closed from then on. */
  lemma ClosedOnAnswer<O>(objects: seq<Option<O>>, nbrs: seq<seq<TileId>>, src: TileId, dist: int, walkableOnly: bool,
                          answers: seq<map<TileId, int>>, j: nat, t: TileId)
    requires j < |answers| && t in answers[j] && 0 <= answers[j][t] <= dist
    requires t in Asked(Level(objects, nbrs, src, dist, walkableOnly, answers[..j]), src)
    ensures t in Level(objects, nbrs, src, dist, walkableOnly, answers).closed
  {
    assert answers[..j + 1][..j] == answers[..j];
    assert answers[..j + 1][j] == answers[j];
    assert t in Level(objects, nbrs, src, dist, walkableOnly, answers[..j + 1]).closed;
    ClosedGrows(objects, nbrs, src, dist, walkableOnly, answers, j + 1, t);
  }


  /**
   * The lists the range query holds after the iterations answers stands
   * for: ring is the open ring and closed the close list, in the order
   * LevelOrder gives them; kept one recursive step away as Appended is.
   */
  ghost predicate Leveled<O>(ring: seq<TileId>, closed: seq<TileId>, objects: seq<Option<O>>, nbrs: seq<seq<TileId>>,
                             src: TileId, dist: int, walkableOnly: bool, answers: seq<map<TileId, int>>)
  {
    LeveledAt(3, ring, closed, objects, nbrs, src, dist, walkableOnly, answers)
  }

  ghost predicate LeveledAt<O>(depth: nat, ring: seq<TileId>, closed: seq<TileId>, objects: seq<Option<O>>,
                               nbrs: seq<seq<TileId>>, src: TileId, dist: int, walkableOnly: bool,
                               answers: seq<map<TileId, int>>)
    decreases depth
  {
    if depth == 0 then LevelOrder(objects, nbrs, src, dist, walkableOnly, answers) == RangeOrder(ring, closed)
    else LeveledAt(depth - 1, ring, closed, objects, nbrs, src, dist, walkableOnly, answers)
  }

  /** Leveled, unfolded. */
  lemma LeveledIs<O>(ring: seq<TileId>, closed: seq<TileId>, objects: seq<Option<O>>, nbrs: seq<seq<TileId>>,
                     src: TileId, dist: int, walkableOnly: bool, answers: seq<map<TileId, int>>)
    ensures Leveled(ring, closed, objects, nbrs, src, dist, walkableOnly, answers)
            <==> LevelOrder(objects, nbrs, src, dist, walkableOnly, answers) == RangeOrder(ring, closed)
  {
    assert LeveledAt(3, ring, closed, objects, nbrs, src, dist, walkableOnly, answers)
       <==> LeveledAt(2, ring, closed, objects, nbrs, src, dist, walkableOnly, answers);
    assert LeveledAt(2, ring, closed, objects, nbrs, src, dist, walkableOnly, answers)
       <==> LeveledAt(1, ring, closed, objects, nbrs, src, dist, walkableOnly, answers);
    assert LeveledAt(1, ring, closed, objects, nbrs, src, dist, walkableOnly, answers)
       <==> LeveledAt(0, ring, closed, objects, nbrs, src, dist, walkableOnly, answers);
  }

  /** Before the first iteration: the first ring, nothing closed. */
  lemma LeveledStart<O>(first: seq<TileId>, objects: seq<Option<O>>, nbrs: seq<seq<TileId>>, src: TileId, dist: int,
                        walkableOnly: bool)
    requires Appended(first, [], Stepped(objects, nbrs, src, walkableOnly), [], [], dist >= 1)
    ensures Leveled(first, [], objects, nbrs, src, dist, walkableOnly, []) && Distinct(first)
  {
    AppendedIs(first, [], Stepped(objects, nbrs, src, walkableOnly), [], [], dist >= 1);
    LeveledIs(first, [], objects, nbrs, src, dist, walkableOnly, []);
  }

  /**
   * One iteration: the next ring built from the open ring and the close list
   * extended over the open ring by the answers a are the lists LevelOrder
   * gives for one more iteration.
   */
  lemma LeveledStep<O>(objects: seq<Option<O>>, nbrs: seq<seq<TileId>>, src: TileId, dist: int, walkableOnly: bool,
                       answers: seq<map<TileId, int>>, a: map<TileId, int>,
                       openList: seq<TileId>, closeList: seq<TileId>, newOpenList: seq<TileId>, closeList': seq<TileId>)
    requires Leveled(openList, closeList, objects, nbrs, src, dist, walkableOnly, answers)
    requires Ringed(newOpenList, objects, nbrs, openList, openList, closeList, walkableOnly, |answers| + 2 <= dist)
    requires closeList' == CloseOrder(closeList, openList, src, a, dist)
    ensures Leveled(newOpenList, closeList', objects, nbrs, src, dist, walkableOnly, answers + [a])
    ensures Distinct(newOpenList)
  {
    LeveledIs(openList, closeList, objects, nbrs, src, dist, walkableOnly, answers);
    RingedIs(newOpenList, objects, nbrs, openList, openList, closeList, walkableOnly, |answers| + 2 <= dist);
    assert (answers + [a])[..|answers|] == answers;
    LeveledIs(newOpenList, closeList', objects, nbrs, src, dist, walkableOnly, answers + [a]);
  }

  /**
   * One iteration of the query: given the ring and closed tiles after
   * |answers| iterations, the next ring and the tiles closed on answers a
   * are those of Level after one more iteration.
   */
  lemma NextLevel<O>(objects: seq<Option<O>>, nbrs: seq<seq<TileId>>, src: TileId, dist: int, walkableOnly: bool,
                     answers: seq<map<TileId, int>>, a: map<TileId, int>,
                     openList: seq<TileId>, closeList: seq<TileId>, newOpenList: seq<TileId>, closeList': seq<TileId>)
    requires Answered(objects, nbrs, src, dist, walkableOnly, answers)
    requires forall t :: t in openList <==> t in Level(objects, nbrs, src, dist, walkableOnly, answers).ring
    requires forall t :: t in closeList <==> t in Level(objects, nbrs, src, dist, walkableOnly, answers).closed
    requires forall t: TileId :: t in newOpenList <==>
               && |answers| + 2 <= dist && t < |objects| && t !in closeList && t !in openList
               && SteppedFrom(objects, nbrs, openList, t, walkableOnly)
    requires forall t: TileId :: t in a <==> t in openList && t != src && t !in closeList
    requires forall t: TileId :: t in a ==> DistanceAnswer(objects, nbrs, src, t, walkableOnly, a[t])
    requires forall t: TileId :: t in closeList' <==> t in closeList || (t in a && 0 <= a[t] <= dist)
    ensures Answered(objects, nbrs, src, dist, walkableOnly, answers + [a])
    ensures forall t :: t in newOpenList <==> t in Level(objects, nbrs, src, dist, walkableOnly, answers + [a]).ring
    ensures forall t :: t in closeList' <==> t in Level(objects, nbrs, src, dist, walkableOnly, answers + [a]).closed
  {
    assert (answers + [a])[..|answers|] == answers;
  }

  // ---------------------------------------------------------------------------
  // The range query's loops
  // ---------------------------------------------------------------------------

  /** The tiles of xs are tiles of the board, free when walkableOnly, each with recorded distance d. */
  ghost predicate AtDistance<O>(tiles: TileGraph<O>, xs: seq<TileId>, walkableOnly: bool, d: int)
    reads tiles
  {
    forall j :: 0 <= j < |xs| ==>
      && xs[j] < tiles.Count() && xs[j] < |tiles.objects| && xs[j] < |tiles.distance|
      && (walkableOnly ==> tiles.objects[xs[j]].None?)
      && tiles.distance[xs[j]] == d
  }

  /**
   * The range query's effect on the tiles: the search scratch is clean, the
   * board is unchanged, and every distance it rewrote lies in [1, MaxWritten(dist)].
   */
  twostate predicate RangeFrame<O>(tiles: TileGraph<O>, dist: int)
    reads tiles
  {
    && tiles.Valid() && tiles.Clean() && tiles.GZero()
    && tiles.objects == old(tiles.objects) && tiles.neighbourList == old(tiles.neighbourList)
    && tiles.aiWeight == old(tiles.aiWeight)
    && Rewrote(old(tiles.distance), tiles.distance, dist)
  }

  /** Every distance of after is the one in before, or lies in [1, MaxWritten(dist)]. */
  ghost predicate Rewrote(before: seq<int>, after: seq<int>, dist: int)
  {
    && |after| == |before|
    && forall k :: 0 <= k < |after| ==> after[k] == before[k] || 1 <= after[k] <= MaxWritten(dist)
  }

  lemma RewroteTrans(d0: seq<int>, d1: seq<int>, d2: seq<int>, dist: int)
    requires Rewrote(d0, d1, dist) && Rewrote(d1, d2, dist)
    ensures Rewrote(d0, d2, dist)
  {
  }

  /** The first ring: every tile src steps to gets distance 1 and, when 1 <= dist, is kept. */
  method FirstRing<O>(tiles: TileGraph<O>, src: TileId, dist: int, walkableOnly: bool) returns (newOpenList: seq<TileId>)
    requires tiles.Valid() && tiles.Clean() && tiles.GZero() && src < tiles.Count()
    modifies tiles
    ensures RangeFrame(tiles, dist)
    ensures AtDistance(tiles, newOpenList, walkableOnly, 1)
    ensures forall t: TileId :: t in newOpenList <==> dist >= 1 && t < tiles.Count() && Enters(tiles.objects, tiles.neighbourList, src, t, walkableOnly)
    ensures Appended(newOpenList, [], Stepped(tiles.objects, tiles.neighbourList, src, walkableOnly), [], [], dist >= 1)
  {
    var neighbourList := tiles.GetNeighbourList(src, walkableOnly);
    ghost var objects, nbrs := tiles.objects, tiles.neighbourList;
    forall t: TileId | t < tiles.Count()
      ensures t in neighbourList <==> Enters(objects, nbrs, src, t, walkableOnly)
    {
      if walkableOnly {
        UnoccupiedMembers(nbrs[src], objects, t);
      }
    }
    newOpenList := [];
    assert neighbourList[..0] == [];
    AppendedStart([], [], [], dist >= 1);
    for m := 0 to |neighbourList|
      invariant RangeFrame(tiles, dist)
      invariant AtDistance(tiles, newOpenList, walkableOnly, 1)
      invariant Appended(newOpenList, [], neighbourList[..m], [], [], dist >= 1)
    {
      var neighbour := neighbourList[m];
      assert neighbour in neighbourList;
      ghost var cur, d1 := newOpenList, tiles.distance;
      newOpenList := FirstNeighbour(tiles, neighbour, newOpenList, dist, walkableOnly);
      AppendedStep([], neighbourList, m, [], [], dist >= 1, cur, newOpenList);
      RewroteTrans(old(tiles.distance), d1, tiles.distance, dist);
    }
    assert neighbourList[..|neighbourList|] == neighbourList;
    AppendedMembers(newOpenList, [], neighbourList, [], [], dist >= 1);
  }

  /** One neighbour of src: when not kept yet it gets distance 1, and joins the first ring when 1 <= dist. */
  method FirstNeighbour<O>(tiles: TileGraph<O>, neighbour: TileId, newOpenList: seq<TileId>, dist: int,
                           walkableOnly: bool)
    returns (newOpenList': seq<TileId>)
    requires tiles.Valid() && neighbour < tiles.Count()
    requires walkableOnly ==> tiles.objects[neighbour].None?
    requires AtDistance(tiles, newOpenList, walkableOnly, 1)
    modifies tiles
    ensures tiles.Valid() && AtDistance(tiles, newOpenList', walkableOnly, 1)
    ensures newOpenList' == if 1 <= dist && neighbour !in newOpenList then newOpenList + [neighbour] else newOpenList
    ensures tiles.objects == old(tiles.objects) && tiles.neighbourList == old(tiles.neighbourList)
    ensures tiles.aiWeight == old(tiles.aiWeight) && tiles.listState == old(tiles.listState)
    ensures tiles.parent == old(tiles.parent) && tiles.scoreG == old(tiles.scoreG)
    ensures tiles.scoreH == old(tiles.scoreH) && tiles.scoreF == old(tiles.scoreF)
    ensures Rewrote(old(tiles.distance), tiles.distance, dist)
  {
    newOpenList' := newOpenList;
    if neighbour !in newOpenList {
      var distance := 1;
      tiles.SetDistance(neighbour, distance);
      if distance <= dist {
        newOpenList' := newOpenList' + [neighbour];
      }
    }
  }

  /**
   * One neighbour of a tile of the open ring (at distance level): when it is
   * in no list yet and level + 1 <= dist, it gets distance level + 1 and joins
   * the next ring.
   */
  method OpenNeighbour<O>(tiles: TileGraph<O>, from: TileId, neighbour: TileId, openList: seq<TileId>,
                          closeList: seq<TileId>, newOpenList: seq<TileId>, dist: int, walkableOnly: bool,
                          ghost level: int)
    returns (newOpenList': seq<TileId>)
    requires tiles.Valid() && 1 <= level && neighbour < tiles.Count()
    requires walkableOnly ==> tiles.objects[neighbour].None?
    requires from in openList && AtDistance(tiles, openList, walkableOnly, level)
    requires AtDistance(tiles, newOpenList, walkableOnly, level + 1)
    modifies tiles
    ensures tiles.Valid() && AtDistance(tiles, openList, walkableOnly, level)
    ensures AtDistance(tiles, newOpenList', walkableOnly, level + 1)
    ensures newOpenList' == if level + 1 <= dist && neighbour !in closeList && neighbour !in openList && neighbour !in newOpenList
                            then newOpenList + [neighbour] else newOpenList
    ensures tiles.objects == old(tiles.objects) && tiles.neighbourList == old(tiles.neighbourList)
    ensures tiles.aiWeight == old(tiles.aiWeight) && tiles.listState == old(tiles.listState)
    ensures tiles.parent == old(tiles.parent) && tiles.scoreG == old(tiles.scoreG)
    ensures tiles.scoreH == old(tiles.scoreH) && tiles.scoreF == old(tiles.scoreF)
    ensures Rewrote(old(tiles.distance), tiles.distance, dist)
  {
    newOpenList' := newOpenList;
    if neighbour !in closeList && neighbour !in openList && neighbour !in newOpenList {
      var distance := 1;
      var j :| 0 <= j < |openList| && openList[j] == from;
      if tiles.distance[from] + distance <= dist {
        tiles.SetDistance(neighbour, tiles.distance[from] + distance);
        newOpenList' := newOpenList' + [neighbour];
      }
    }
  }

  /**
   * The neighbours of one tile of the open ring (at distance level): each
   * tile from steps to that is in no list yet gets distance level + 1 and
   * joins the next ring when level + 1 <= dist.
   */
  method OpenRing<O>(tiles: TileGraph<O>, from: TileId, openList: seq<TileId>, closeList: seq<TileId>,
                     newOpenList: seq<TileId>, dist: int, walkableOnly: bool, ghost level: int)
    returns (newOpenList': seq<TileId>)
    requires tiles.Valid() && tiles.Clean() && tiles.GZero() && 1 <= level
    requires from in openList && AtDistance(tiles, openList, walkableOnly, level)
    requires AtDistance(tiles, newOpenList, walkableOnly, level + 1)
    modifies tiles
    ensures RangeFrame(tiles, dist)
    ensures AtDistance(tiles, openList, walkableOnly, level)
    ensures AtDistance(tiles, newOpenList', walkableOnly, level + 1)
    ensures Opened(newOpenList', newOpenList, tiles.objects, tiles.neighbourList, from, openList, closeList, walkableOnly,
                   level + 1 <= dist, tiles.Count())
    ensures Appended(newOpenList', newOpenList, Stepped(tiles.objects, tiles.neighbourList, from, walkableOnly),
                     closeList, openList, level + 1 <= dist)
  {
    var neighbourList := tiles.GetNeighbourList(from, walkableOnly);
    ghost var objects, nbrs := tiles.objects, tiles.neighbourList;
    forall t: TileId | t < tiles.Count()
      ensures t in neighbourList <==> Enters(objects, nbrs, from, t, walkableOnly)
    {
      if walkableOnly {
        UnoccupiedMembers(nbrs[from], objects, t);
      }
    }
    newOpenList' := OpenNeighbours(tiles, from, neighbourList, openList, closeList, newOpenList, dist, walkableOnly, level);
    AppendedMembers(newOpenList', newOpenList, neighbourList, closeList, openList, level + 1 <= dist);
    OpenedIs(newOpenList', newOpenList, objects, nbrs, from, openList, closeList, walkableOnly, level + 1 <= dist,
             tiles.Count());
  }

  /**
   * next is cur with, when pushing, the tiles below count that from steps to
   * and that are neither in ring nor closed; kept two recursive steps away.
   */
  ghost predicate Opened<O>(next: seq<TileId>, cur: seq<TileId>, objects: seq<Option<O>>, nbrs: seq<seq<TileId>>,
                            from: TileId, ring: seq<TileId>, closed: seq<TileId>, walkableOnly: bool, pushing: bool,
                            count: nat)
  {
    OpenedAt(2, next, cur, objects, nbrs, from, ring, closed, walkableOnly, pushing, count)
  }

  ghost predicate OpenedAt<O>(depth: nat, next: seq<TileId>, cur: seq<TileId>, objects: seq<Option<O>>,
                              nbrs: seq<seq<TileId>>, from: TileId, ring: seq<TileId>, closed: seq<TileId>,
                              walkableOnly: bool, pushing: bool, count: nat)
    decreases depth
  {
    if depth == 0 then
      forall t: TileId :: t in next <==>
        t in cur || (&& pushing && t < count && t !in closed && t !in ring && Enters(objects, nbrs, from, t, walkableOnly))
    else OpenedAt(depth - 1, next, cur, objects, nbrs, from, ring, closed, walkableOnly, pushing, count)
  }

  /** Opened, unfolded. */
  lemma OpenedIs<O>(next: seq<TileId>, cur: seq<TileId>, objects: seq<Option<O>>, nbrs: seq<seq<TileId>>,
                    from: TileId, ring: seq<TileId>, closed: seq<TileId>, walkableOnly: bool, pushing: bool, count: nat)
    ensures Opened(next, cur, objects, nbrs, from, ring, closed, walkableOnly, pushing, count)
            <==> forall t: TileId :: t in next <==>
                   t in cur || (&& pushing && t < count && t !in closed && t !in ring
                                && Enters(objects, nbrs, from, t, walkableOnly))
  {
    assert OpenedAt(2, next, cur, objects, nbrs, from, ring, closed, walkableOnly, pushing, count)
       <==> OpenedAt(1, next, cur, objects, nbrs, from, ring, closed, walkableOnly, pushing, count);
  }

  /** The loop of OpenRing over the neighbours from lists, its outcome kept as Appended. */
  method OpenNeighbours<O>(tiles: TileGraph<O>, from: TileId, neighbourList: seq<TileId>, openList: seq<TileId>,
                           closeList: seq<TileId>, newOpenList: seq<TileId>, dist: int, walkableOnly: bool,
                           ghost level: int)
    returns (newOpenList': seq<TileId>)
    requires tiles.Valid() && tiles.Clean() && tiles.GZero() && 1 <= level
    requires forall t :: t in neighbourList ==> t < tiles.Count() && (walkableOnly ==> tiles.objects[t].None?)
    requires from in openList && AtDistance(tiles, openList, walkableOnly, level)
    requires AtDistance(tiles, newOpenList, walkableOnly, level + 1)
    modifies tiles
    ensures RangeFrame(tiles, dist)
    ensures AtDistance(tiles, openList, walkableOnly, level)
    ensures AtDistance(tiles, newOpenList', walkableOnly, level + 1)
    ensures Appended(newOpenList', newOpenList, neighbourList, closeList, openList, level + 1 <= dist)
  {
    newOpenList' := newOpenList;
    assert neighbourList[..0] == [];
    AppendedStart(newOpenList, closeList, openList, level + 1 <= dist);
    for m := 0 to |neighbourList|
      invariant RangeFrame(tiles, dist)
      invariant AtDistance(tiles, openList, walkableOnly, level)
      invariant AtDistance(tiles, newOpenList', walkableOnly, level + 1)
      invariant Appended(newOpenList', newOpenList, neighbourList[..m], closeList, openList, level + 1 <= dist)
    {
      var neighbour := neighbourList[m];
      assert neighbour in neighbourList;
      ghost var cur, d1 := newOpenList', tiles.distance;
      newOpenList' := OpenNeighbour(tiles, from, neighbour, openList, closeList, newOpenList', dist, walkableOnly, level);
      AppendedStep(newOpenList, neighbourList, m, closeList, openList, level + 1 <= dist, cur, newOpenList');
      RewroteTrans(old(tiles.distance), d1, tiles.distance, dist);
    }
    assert neighbourList[..|neighbourList|] == neighbourList;
  }

  /** Some tile of xs steps to t. */
  ghost predicate SteppedFrom<O>(objects: seq<Option<O>>, nbrs: seq<seq<TileId>>, xs: seq<TileId>, t: TileId, walkableOnly: bool)
  {
    exists f :: f in xs && Enters(objects, nbrs, f, t, walkableOnly)
  }

  /**
   * xs holds, when pushing, the tiles below count that some tile of froms
   * steps to and that are neither in ring nor closed, and nothing otherwise;
   * kept two recursive steps away so that the ring loop passes it on whole.
   */
  ghost predicate Gathered<O>(xs: seq<TileId>, objects: seq<Option<O>>, nbrs: seq<seq<TileId>>, froms: seq<TileId>,
                              ring: seq<TileId>, closed: seq<TileId>, walkableOnly: bool, pushing: bool, count: nat)
  {
    GatheredAt(2, xs, objects, nbrs, froms, ring, closed, walkableOnly, pushing, count)
  }

  ghost predicate GatheredAt<O>(depth: nat, xs: seq<TileId>, objects: seq<Option<O>>, nbrs: seq<seq<TileId>>,
                                froms: seq<TileId>, ring: seq<TileId>, closed: seq<TileId>, walkableOnly: bool,
                                pushing: bool, count: nat)
    decreases depth
  {
    if depth == 0 then
      forall t: TileId :: t in xs <==>
        && pushing && t < count && t !in closed && t !in ring
        && SteppedFrom(objects, nbrs, froms, t, walkableOnly)
    else GatheredAt(depth - 1, xs, objects, nbrs, froms, ring, closed, walkableOnly, pushing, count)
  }

  /** Gathered, unfolded. */
  lemma GatheredIs<O>(xs: seq<TileId>, objects: seq<Option<O>>, nbrs: seq<seq<TileId>>, froms: seq<TileId>,
                      ring: seq<TileId>, closed: seq<TileId>, walkableOnly: bool, pushing: bool, count: nat)
    ensures Gathered(xs, objects, nbrs, froms, ring, closed, walkableOnly, pushing, count)
            <==> forall t: TileId :: t in xs <==>
                   && pushing && t < count && t !in closed && t !in ring
                   && SteppedFrom(objects, nbrs, froms, t, walkableOnly)
  {
    assert GatheredAt(2, xs, objects, nbrs, froms, ring, closed, walkableOnly, pushing, count)
       <==> GatheredAt(1, xs, objects, nbrs, froms, ring, closed, walkableOnly, pushing, count);
    assert GatheredAt(1, xs, objects, nbrs, froms, ring, closed, walkableOnly, pushing, count)
       <==> GatheredAt(0, xs, objects, nbrs, froms, ring, closed, walkableOnly, pushing, count);
  }

  /** One step of the ring loop: next adds to cur the tiles froms[n] steps to that are new. */
  lemma GatheredStep<O>(objects: seq<Option<O>>, nbrs: seq<seq<TileId>>, froms: seq<TileId>, n: nat, ring: seq<TileId>,
                        closed: seq<TileId>, walkableOnly: bool, pushing: bool, count: nat,
                        cur: seq<TileId>, next: seq<TileId>)
    requires n < |froms| && Gathered(cur, objects, nbrs, froms[..n], ring, closed, walkableOnly, pushing, count)
    requires Opened(next, cur, objects, nbrs, froms[n], ring, closed, walkableOnly, pushing, count)
    ensures Gathered(next, objects, nbrs, froms[..n + 1], ring, closed, walkableOnly, pushing, count)
  {
    GatheredIs(cur, objects, nbrs, froms[..n], ring, closed, walkableOnly, pushing, count);
    GatheredIs(next, objects, nbrs, froms[..n + 1], ring, closed, walkableOnly, pushing, count);
    OpenedIs(next, cur, objects, nbrs, froms[n], ring, closed, walkableOnly, pushing, count);
    assert froms[..n + 1] == froms[..n] + [froms[n]];
    forall t: TileId
      ensures SteppedFrom(objects, nbrs, froms[..n + 1], t, walkableOnly)
              <==> SteppedFrom(objects, nbrs, froms[..n], t, walkableOnly) || Enters(objects, nbrs, froms[n], t, walkableOnly)
    {
      if SteppedFrom(objects, nbrs, froms[..n + 1], t, walkableOnly) {
        var f :| f in froms[..n + 1] && Enters(objects, nbrs, f, t, walkableOnly);
        if f != froms[n] {
          assert f in froms[..n];
        }
      }
      if Enters(objects, nbrs, froms[n], t, walkableOnly) {
        assert froms[n] in froms[..n + 1];
      }
      if SteppedFrom(objects, nbrs, froms[..n], t, walkableOnly) {
        var f :| f in froms[..n] && Enters(objects, nbrs, f, t, walkableOnly);
        assert f in froms[..n + 1];
      }
    }
  }

  /**
   * The next ring: OpenRing over every tile of the current ring (at distance
   * level); it holds the tiles a tile of the ring steps to that are neither
   * in the ring nor closed, when level + 1 <= dist, each at distance level + 1.
   */
  method NextRing<O>(tiles: TileGraph<O>, openList: seq<TileId>, closeList: seq<TileId>, dist: int, walkableOnly: bool,
                     ghost level: int)
    returns (newOpenList: seq<TileId>)
    requires tiles.Valid() && tiles.Clean() && tiles.GZero() && 1 <= level
    requires AtDistance(tiles, openList, walkableOnly, level)
    modifies tiles
    ensures RangeFrame(tiles, dist)
    ensures AtDistance(tiles, openList, walkableOnly, level) && AtDistance(tiles, newOpenList, walkableOnly, level + 1)
    ensures forall t: TileId :: t in newOpenList <==>
              && level + 1 <= dist && t < tiles.Count() && t !in closeList && t !in openList
              && SteppedFrom(tiles.objects, tiles.neighbourList, openList, t, walkableOnly)
    ensures Ringed(newOpenList, tiles.objects, tiles.neighbourList, openList, openList, closeList, walkableOnly, level + 1 <= dist)
  {
    newOpenList := GatherRing(tiles, openList, closeList, dist, walkableOnly, level);
    GatheredIs(newOpenList, tiles.objects, tiles.neighbourList, openList, openList, closeList, walkableOnly,
               level + 1 <= dist, tiles.Count());
  }

  /** The loop of NextRing, its outcome kept as Gathered and Ringed. */
  method GatherRing<O>(tiles: TileGraph<O>, openList: seq<TileId>, closeList: seq<TileId>, dist: int, walkableOnly: bool,
                       ghost level: int)
    returns (newOpenList: seq<TileId>)
    requires tiles.Valid() && tiles.Clean() && tiles.GZero() && 1 <= level
    requires AtDistance(tiles, openList, walkableOnly, level)
    modifies tiles
    ensures RangeFrame(tiles, dist)
    ensures AtDistance(tiles, openList, walkableOnly, level) && AtDistance(tiles, newOpenList, walkableOnly, level + 1)
    ensures Gathered(newOpenList, tiles.objects, tiles.neighbourList, openList, openList, closeList, walkableOnly,
                     level + 1 <= dist, tiles.Count())
    ensures Ringed(newOpenList, tiles.objects, tiles.neighbourList, openList, openList, closeList, walkableOnly, level + 1 <= dist)
  {
    ghost var objects, nbrs := tiles.objects, tiles.neighbourList;
    ghost var count := tiles.Count();
    newOpenList := [];
    assert openList[..0] == [];
    RingedIs([], objects, nbrs, [], openList, closeList, walkableOnly, level + 1 <= dist);
    GatheredIs([], objects, nbrs, [], openList, closeList, walkableOnly, level + 1 <= dist, count);
    for n := 0 to |openList|
      invariant RangeFrame(tiles, dist)
      invariant AtDistance(tiles, openList, walkableOnly, level)
      invariant AtDistance(tiles, newOpenList, walkableOnly, level + 1)
      invariant tiles.objects == objects && tiles.neighbourList == nbrs && tiles.Count() == count
      invariant Gathered(newOpenList, objects, nbrs, openList[..n], openList, closeList, walkableOnly, level + 1 <= dist, count)
      invariant Ringed(newOpenList, objects, nbrs, openList[..n], openList, closeList, walkableOnly, level + 1 <= dist)
    {
      assert openList[n] in openList;
      ghost var cur, d1 := newOpenList, tiles.distance;
      newOpenList := OpenRing(tiles, openList[n], openList, closeList, newOpenList, dist, walkableOnly, level);
      RewroteTrans(old(tiles.distance), d1, tiles.distance, dist);
      GatheredStep(objects, nbrs, openList, n, openList, closeList, walkableOnly, level + 1 <= dist, count, cur, newOpenList);
      RingedStep(objects, nbrs, openList, n, openList, closeList, walkableOnly, level + 1 <= dist, cur, newOpenList);
    }
    assert openList[..|openList|] == openList;
  }

  /**
   * The cost check after the tiles of ring: answers maps each tile of ring
   * other than src that was not in closed to getDistance's answer, and
   * closed' is closed extended, in CloseOrder, by those answered within
   * [0, dist]; kept two recursive steps away so that the loop passes it on whole.
   */
  ghost predicate Closing<O>(objects: seq<Option<O>>, nbrs: seq<seq<TileId>>, src: TileId, ring: seq<TileId>,
                             closed: seq<TileId>, closed': seq<TileId>, answers: map<TileId, int>, dist: int,
                             walkableOnly: bool)
  {
    ClosingAt(2, objects, nbrs, src, ring, closed, closed', answers, dist, walkableOnly)
  }

  ghost predicate ClosingAt<O>(depth: nat, objects: seq<Option<O>>, nbrs: seq<seq<TileId>>, src: TileId,
                               ring: seq<TileId>, closed: seq<TileId>, closed': seq<TileId>, answers: map<TileId, int>,
                               dist: int, walkableOnly: bool)
    decreases depth
  {
    if depth == 0 then
      && (forall t: TileId :: t in answers <==> t in ring && t != src && t !in closed)
      && AllAnswers(objects, nbrs, src, answers, walkableOnly)
      && (forall t: TileId :: t in closed' <==> t in closed || (t in answers && 0 <= answers[t] <= dist))
      && closed' == CloseOrder(closed, ring, src, answers, dist)
    else ClosingAt(depth - 1, objects, nbrs, src, ring, closed, closed', answers, dist, walkableOnly)
  }

  /** Each answer of answers is one getDistance gives; kept two recursive steps away. */
  ghost predicate AllAnswers<O>(objects: seq<Option<O>>, nbrs: seq<seq<TileId>>, src: TileId, answers: map<TileId, int>,
                              walkableOnly: bool)
  {
    AllAnswersAt(2, objects, nbrs, src, answers, walkableOnly)
  }

  ghost predicate AllAnswersAt<O>(depth: nat, objects: seq<Option<O>>, nbrs: seq<seq<TileId>>, src: TileId,
                                answers: map<TileId, int>, walkableOnly: bool)
    decreases depth
  {
    if depth == 0 then forall t: TileId :: t in answers ==> DistanceAnswer(objects, nbrs, src, t, walkableOnly, answers[t])
    else AllAnswersAt(depth - 1, objects, nbrs, src, answers, walkableOnly)
  }

  /** AllAnswers, unfolded. */
  lemma AllAnswersIs<O>(objects: seq<Option<O>>, nbrs: seq<seq<TileId>>, src: TileId, answers: map<TileId, int>,
                      walkableOnly: bool)
    ensures AllAnswers(objects, nbrs, src, answers, walkableOnly)
            <==> forall t: TileId :: t in answers ==> DistanceAnswer(objects, nbrs, src, t, walkableOnly, answers[t])
  {
    assert AllAnswersAt(2, objects, nbrs, src, answers, walkableOnly) <==> AllAnswersAt(1, objects, nbrs, src, answers, walkableOnly);
  }

  /** Adding one answer getDistance gives keeps AllAnswers. */
  lemma AllAnswersSnoc<O>(objects: seq<Option<O>>, nbrs: seq<seq<TileId>>, src: TileId, answers: map<TileId, int>,
                        t: TileId, d: int, walkableOnly: bool)
    requires AllAnswers(objects, nbrs, src, answers, walkableOnly)
    requires DistanceAnswer(objects, nbrs, src, t, walkableOnly, d)
    ensures AllAnswers(objects, nbrs, src, answers[t := d], walkableOnly)
  {
    AllAnswersIs(objects, nbrs, src, answers, walkableOnly);
    AllAnswersIs(objects, nbrs, src, answers[t := d], walkableOnly);
  }

  /** Closing, unfolded. */
  lemma ClosingIs<O>(objects: seq<Option<O>>, nbrs: seq<seq<TileId>>, src: TileId, ring: seq<TileId>,
                     closed: seq<TileId>, closed': seq<TileId>, answers: map<TileId, int>, dist: int, walkableOnly: bool)
    ensures Closing(objects, nbrs, src, ring, closed, closed', answers, dist, walkableOnly)
            <==> ClosingAt(0, objects, nbrs, src, ring, closed, closed', answers, dist, walkableOnly)
  {
    assert ClosingAt(2, objects, nbrs, src, ring, closed, closed', answers, dist, walkableOnly)
       <==> ClosingAt(1, objects, nbrs, src, ring, closed, closed', answers, dist, walkableOnly);
  }

  /** Closing, from its parts. */
  lemma ClosingIntro<O>(objects: seq<Option<O>>, nbrs: seq<seq<TileId>>, src: TileId, ring: seq<TileId>,
                        closed: seq<TileId>, closed': seq<TileId>, answers: map<TileId, int>, dist: int,
                        walkableOnly: bool)
    requires forall t: TileId :: t in answers <==> t in ring && t != src && t !in closed
    requires AllAnswers(objects, nbrs, src, answers, walkableOnly)
    requires forall t: TileId :: t in closed' <==> t in closed || (t in answers && 0 <= answers[t] <= dist)
    requires closed' == CloseOrder(closed, ring, src, answers, dist)
    ensures Closing(objects, nbrs, src, ring, closed, closed', answers, dist, walkableOnly)
  {
    ClosingIs(objects, nbrs, src, ring, closed, closed', answers, dist, walkableOnly);
  }

  /**
   * One step of the cost check: the next tile of the ring is asked about
   * when it is not src and not closed yet, with answer d, and closed when d
   * lies in [0, dist]; otherwise nothing changes.
   */
  lemma ClosingStep<O>(objects: seq<Option<O>>, nbrs: seq<seq<TileId>>, src: TileId, ring: seq<TileId>, n: nat,
                       closed: seq<TileId>, cur: seq<TileId>, answers: map<TileId, int>, dist: int, walkableOnly: bool,
                       d: int, next: seq<TileId>)
    requires n < |ring| && Distinct(ring)
    requires Closing(objects, nbrs, src, ring[..n], closed, cur, answers, dist, walkableOnly)
    requires ring[n] != src && ring[n] !in cur ==> DistanceAnswer(objects, nbrs, src, ring[n], walkableOnly, d)
    requires next == if ring[n] != src && ring[n] !in cur && 0 <= d <= dist then cur + [ring[n]] else cur
    ensures Closing(objects, nbrs, src, ring[..n + 1], closed, next,
                    if ring[n] != src && ring[n] !in cur then answers[ring[n] := d] else answers, dist, walkableOnly)
  {
    ClosingIs(objects, nbrs, src, ring[..n], closed, cur, answers, dist, walkableOnly);
    var t := ring[n];
    var answers' := if t != src && t !in cur then answers[t := d] else answers;
    ClosedStep(ring, n, src, closed, cur, answers, dist, d, next);
    if t != src && t !in cur {
      AllAnswersSnoc(objects, nbrs, src, answers, t, d, walkableOnly);
      assert AllAnswers(objects, nbrs, src, answers', walkableOnly);
    } else {
      assert answers' == answers;
      assert AllAnswers(objects, nbrs, src, answers', walkableOnly);
    }
    ClosingIntro(objects, nbrs, src, ring[..n + 1], closed, next, answers', dist, walkableOnly);
  }

  /** The list part of ClosingStep: which tiles are answered and which closed, in which order. */
  lemma ClosedStep(ring: seq<TileId>, n: nat, src: TileId, closed: seq<TileId>, cur: seq<TileId>,
                   answers: map<TileId, int>, dist: int, d: int, next: seq<TileId>)
    requires n < |ring| && Distinct(ring)
    requires forall t: TileId :: t in answers <==> t in ring[..n] && t != src && t !in closed
    requires forall t: TileId :: t in cur <==> t in closed || (t in answers && 0 <= answers[t] <= dist)
    requires cur == CloseOrder(closed, ring[..n], src, answers, dist)
    requires next == if ring[n] != src && ring[n] !in cur && 0 <= d <= dist then cur + [ring[n]] else cur
    ensures var answers' := if ring[n] != src && ring[n] !in cur then answers[ring[n] := d] else answers;
            && (forall t: TileId :: t in answers' <==> t in ring[..n + 1] && t != src && t !in closed)
            && (forall t: TileId :: t in next <==> t in closed || (t in answers' && 0 <= answers'[t] <= dist))
            && next == CloseOrder(closed, ring[..n + 1], src, answers', dist)
  {
    var t := ring[n];
    var answers' := if t != src && t !in cur then answers[t := d] else answers;
    assert ring[..n + 1] == ring[..n] + [t];
    assert ring[..n + 1][..n] == ring[..n];
    assert t !in ring[..n];
    assert t !in answers;
    if t != src && t !in cur {
      CloseOrderFrame(closed, ring[..n], src, answers, answers', dist);
    }
  }

  /**
   * The cost check: getDistance is asked about each tile of the ring other
   * than src that is not closed yet (answers maps it to the answer), and
   * the tile is closed when the answer lies in [0, dist].
   */
  method CloseRing<O>(tiles: TileGraph<O>, src: TileId, openList: seq<TileId>, closeList: seq<TileId>,
                      dist: int, walkableOnly: bool, ghost level: int) returns (closeList': seq<TileId>, ghost answers: map<TileId, int>)
    requires tiles.Valid() && tiles.Clean() && tiles.GZero() && src < tiles.Count()
    requires AtDistance(tiles, openList, walkableOnly, level)
    requires RangeResult(tiles.objects, tiles.neighbourList, src, closeList, walkableOnly, dist)
    requires Distinct(openList)
    modifies tiles
    ensures RangeFrame(tiles, dist) && tiles.distance == old(tiles.distance)
    ensures RangeResult(tiles.objects, tiles.neighbourList, src, closeList', walkableOnly, dist)
    ensures forall t: TileId :: t in answers <==> t in openList && t != src && t !in closeList
    ensures forall t: TileId :: t in answers ==> DistanceAnswer(tiles.objects, tiles.neighbourList, src, t, walkableOnly, answers[t])
    ensures forall t: TileId :: t in closeList' <==> t in closeList || (t in answers && 0 <= answers[t] <= dist)
    ensures closeList' == CloseOrder(closeList, openList, src, answers, dist)
  {
    ghost var objects, nbrs := tiles.objects, tiles.neighbourList;
    closeList' := closeList;
    answers := map[];
    AllAnswersIs(objects, nbrs, src, answers, walkableOnly);
    ClosingIs(objects, nbrs, src, openList[..0], closeList, closeList', answers, dist, walkableOnly);
    for n := 0 to |openList|
      invariant RangeFrame(tiles, dist) && tiles.distance == old(tiles.distance)
      invariant tiles.objects == objects && tiles.neighbourList == nbrs
      invariant RangeResult(objects, nbrs, src, closeList', walkableOnly, dist)
      invariant Closing(objects, nbrs, src, openList[..n], closeList, closeList', answers, dist, walkableOnly)
    {
      var tile := openList[n];
      ghost var cur, rangeCost := closeList', 0;
      if tile != src && tile !in closeList' {
        assert tile in openList;
        closeList', rangeCost := CloseTile(tiles, src, tile, closeList', dist, walkableOnly);
      }
      ClosingStep(objects, nbrs, src, openList, n, closeList, cur, answers, dist, walkableOnly, rangeCost, closeList');
      if tile != src && tile !in cur {
        answers := answers[tile := rangeCost];
      }
    }
    assert openList[..|openList|] == openList;
    ClosingIs(objects, nbrs, src, openList, closeList, closeList', answers, dist, walkableOnly);
    AllAnswersIs(objects, nbrs, src, answers, walkableOnly);
  }

  /** The cost check for one tile of the ring: getDistance's answer d, and the tile closed when d lies in [0, dist]. */
  method CloseTile<O>(tiles: TileGraph<O>, src: TileId, tile: TileId, closeList: seq<TileId>, dist: int, walkableOnly: bool)
    returns (closeList': seq<TileId>, ghost d: int)
    requires tiles.Valid() && tiles.Clean() && tiles.GZero() && src < tiles.Count() && tile < tiles.Count()
    requires tile != src && tile !in closeList && (walkableOnly ==> tiles.objects[tile].None?)
    requires RangeResult(tiles.objects, tiles.neighbourList, src, closeList, walkableOnly, dist)
    modifies tiles
    ensures RangeFrame(tiles, dist) && tiles.distance == old(tiles.distance)
    ensures DistanceAnswer(tiles.objects, tiles.neighbourList, src, tile, walkableOnly, d)
    ensures closeList' == if 0 <= d <= dist then closeList + [tile] else closeList
    ensures RangeResult(tiles.objects, tiles.neighbourList, src, closeList', walkableOnly, dist)
  {
    var rangeCost := GetDistance(tiles, src, tile, walkableOnly);
    d := rangeCost;
    closeList' := closeList;
    if rangeCost != -1 && rangeCost <= dist {
      RangeResultSnoc(tiles.objects, tiles.neighbourList, src, closeList, tile, walkableOnly, dist);
      closeList' := closeList + [tile];
    }
  }

  /** A tile other than src, not yet in xs, free in walkable mode and within dist steps, extends a range result. */
  lemma RangeResultSnoc<O>(objects: seq<Option<O>>, nbrs: seq<seq<TileId>>, src: TileId, xs: seq<TileId>, t: TileId,
                           walkableOnly: bool, dist: int)
    requires RangeResult(objects, nbrs, src, xs, walkableOnly, dist)
    requires t !in xs && t != src && t < |objects| && (walkableOnly ==> objects[t].None?)
    requires exists w :: IsWalk(objects, nbrs, w, Some(t), walkableOnly) && |w| <= dist + 1 && w[0] == src && w[|w| - 1] == t
    ensures RangeResult(objects, nbrs, src, xs + [t], walkableOnly, dist)
  {
    assert WithinSteps(objects, nbrs, src, t, walkableOnly, dist);
  }

  /** Whether tile k holds a unit of a faction other than faction. */
  predicate HoldsEnemy(o: Option<Unit>, faction: Faction)
    reads if o.Some? then {o.value} else {}
  {
    o.Some? && o.value.factionData.Some? && o.value.factionData.value.faction != faction
  }

  /** The tiles of xs, in order, that hold an enemy of faction. */
  ghost function Enemies(xs: seq<TileId>, objects: seq<Option<Unit>>, faction: Faction): seq<TileId>
    requires forall j :: 0 <= j < |xs| ==> xs[j] < |objects|
    reads set o | o in objects && o.Some? :: o.value
  {
    if xs == [] then []
    else
      var last := xs[|xs| - 1];
      assert objects[last] in objects;
      Enemies(xs[..|xs| - 1], objects, faction) + (if HoldsEnemy(objects[last], faction) then [last] else [])
  }

  /** A tile is kept exactly when it is in xs and holds an enemy; the order of xs is kept. */
  lemma {:induction false} EnemiesMembers(xs: seq<TileId>, objects: seq<Option<Unit>>, faction: Faction, k: TileId)
    requires forall j :: 0 <= j < |xs| ==> xs[j] < |objects|
    ensures k in Enemies(xs, objects, faction) <==> k in xs && HoldsEnemy(objects[k], faction)
  {
    if xs != [] {
      var init := xs[..|xs| - 1];
      EnemiesMembers(init, objects, faction, k);
      assert xs == init + [xs[|xs| - 1]];
    }
  }

  /**
   * The range query's lists after the iterations answers stands for: ring
   * and closed hold the tiles of Level, in the order of LevelOrder, ring
   * without repeats and closed a range result; kept two recursive steps away
   * so that the outer loop passes it on whole.
   */
  ghost predicate Queried<O>(ring: seq<TileId>, closed: seq<TileId>, objects: seq<Option<O>>, nbrs: seq<seq<TileId>>,
                             src: TileId, dist: int, walkableOnly: bool, answers: seq<map<TileId, int>>)
  {
    QueriedAt(2, ring, closed, objects, nbrs, src, dist, walkableOnly, answers)
  }

  ghost predicate QueriedAt<O>(depth: nat, ring: seq<TileId>, closed: seq<TileId>, objects: seq<Option<O>>,
                               nbrs: seq<seq<TileId>>, src: TileId, dist: int, walkableOnly: bool,
                               answers: seq<map<TileId, int>>)
    decreases depth
  {
    if depth == 0 then
      && Answered(objects, nbrs, src, dist, walkableOnly, answers)
      && (forall t :: t in ring <==> t in Level(objects, nbrs, src, dist, walkableOnly, answers).ring)
      && (forall t :: t in closed <==> t in Level(objects, nbrs, src, dist, walkableOnly, answers).closed)
      && Leveled(ring, closed, objects, nbrs, src, dist, walkableOnly, answers)
      && Distinct(ring)
      && RangeResult(objects, nbrs, src, closed, walkableOnly, dist)
    else QueriedAt(depth - 1, ring, closed, objects, nbrs, src, dist, walkableOnly, answers)
  }

  /** Queried, unfolded. */
  lemma QueriedIs<O>(ring: seq<TileId>, closed: seq<TileId>, objects: seq<Option<O>>, nbrs: seq<seq<TileId>>,
                     src: TileId, dist: int, walkableOnly: bool, answers: seq<map<TileId, int>>)
    ensures Queried(ring, closed, objects, nbrs, src, dist, walkableOnly, answers)
            <==> QueriedAt(0, ring, closed, objects, nbrs, src, dist, walkableOnly, answers)
  {
    assert QueriedAt(2, ring, closed, objects, nbrs, src, dist, walkableOnly, answers)
       <==> QueriedAt(1, ring, closed, objects, nbrs, src, dist, walkableOnly, answers);
  }

  /** Queried, from its parts. */
  lemma QueriedIntro<O>(ring: seq<TileId>, closed: seq<TileId>, objects: seq<Option<O>>, nbrs: seq<seq<TileId>>,
                        src: TileId, dist: int, walkableOnly: bool, answers: seq<map<TileId, int>>)
    requires Answered(objects, nbrs, src, dist, walkableOnly, answers)
    requires forall t :: t in ring <==> t in Level(objects, nbrs, src, dist, walkableOnly, answers).ring
    requires forall t :: t in closed <==> t in Level(objects, nbrs, src, dist, walkableOnly, answers).closed
    requires Leveled(ring, closed, objects, nbrs, src, dist, walkableOnly, answers)
    requires Distinct(ring)
    requires RangeResult(objects, nbrs, src, closed, walkableOnly, dist)
    ensures Queried(ring, closed, objects, nbrs, src, dist, walkableOnly, answers)
  {
    QueriedIs(ring, closed, objects, nbrs, src, dist, walkableOnly, answers);
  }

  /**
   * One iteration of the range query's outer loop: the open ring becomes
   * the ring just built, the next ring is built from it (NextRing), and its
   * tiles are checked against src for the close list (CloseRing).
   */
  method RangeIteration<O>(tiles: TileGraph<O>, src: TileId, dist: int, walkableOnly: bool,
                           newOpenList: seq<TileId>, closeList: seq<TileId>, ghost answers: seq<map<TileId, int>>)
    returns (newOpenList': seq<TileId>, closeList': seq<TileId>, ghost a: map<TileId, int>)
    requires tiles.Valid() && tiles.Clean() && tiles.GZero() && src < tiles.Count()
    requires |answers| < dist
    requires AtDistance(tiles, newOpenList, walkableOnly, |answers| + 1)
    requires Queried(newOpenList, closeList, tiles.objects, tiles.neighbourList, src, dist, walkableOnly, answers)
    modifies tiles
    ensures RangeFrame(tiles, dist)
    ensures AtDistance(tiles, newOpenList', walkableOnly, |answers| + 2)
    ensures Queried(newOpenList', closeList', tiles.objects, tiles.neighbourList, src, dist, walkableOnly, answers + [a])
  {
    ghost var objects, nbrs := tiles.objects, tiles.neighbourList;
    QueriedIs(newOpenList, closeList, objects, nbrs, src, dist, walkableOnly, answers);
    var openList := newOpenList;
    newOpenList' := NextRing(tiles, openList, closeList, dist, walkableOnly, |answers| + 1);
    ghost var d1 := tiles.distance;
    closeList', a := CloseRing(tiles, src, openList, closeList, dist, walkableOnly, |answers| + 1);
    RewroteTrans(old(tiles.distance), d1, tiles.distance, dist);
    NextLevel(objects, nbrs, src, dist, walkableOnly, answers, a, openList, closeList, newOpenList', closeList');
    LeveledStep(objects, nbrs, src, dist, walkableOnly, answers, a, openList, closeList, newOpenList', closeList');
    QueriedIntro(newOpenList', closeList', objects, nbrs, src, dist, walkableOnly, answers + [a]);
  }

  /** Every unit standing on a tile belongs to a faction. */
  ghost predicate OccupantsInFactions(objects: seq<Option<Unit>>)
    reads set o | o in objects && o.Some? :: o.value
  {
    forall k :: 0 <= k < |objects| && objects[k].Some? ==> objects[k].value.factionData.Some?
  }

  class GridManager {
    const grid: Grid
    /** The per-tile state of grid's tiles, occupants being units. */
    const tiles: TileGraph<Unit>
    /** The tiles painted by the last range display. */
    var paintedTiles: seq<TileId>

    /** The grid is laid out, the tile state covers exactly its tiles and the search scratch is clean. */
    ghost predicate Valid()
      reads tiles
    {
      && grid.Valid() && tiles.Valid() && tiles.Clean() && tiles.GZero()
      && tiles.coords == grid.tileList
    }

    /** Every tile's neighbour list is the wired one. */
    ghost predicate Wired()
      reads this, grid, tiles
    {
      && |tiles.neighbourList| == |grid.tileList|
      && forall k :: 0 <= k < |tiles.neighbourList| ==> tiles.neighbourList[k] == Wiring(k, grid.length, |grid.tileList|)
    }

    /** The constructor: fresh search state for every tile and the four neighbour probes, in order. */
    constructor (grid: Grid)
      requires grid.Valid()
      ensures this.grid == grid && Valid() && Wired() && fresh(tiles)
      ensures paintedTiles == []
      ensures forall k :: 0 <= k < tiles.Count() ==> tiles.objects[k] == None && tiles.aiWeight[k] == 0
    {
      this.grid := grid;
      tiles := new TileGraph(grid.tileList);
      paintedTiles := [];
      new;
      var count := |grid.tileList|;
      for i := 0 to count
        invariant Valid() && fresh(tiles) && paintedTiles == []
        invariant forall k :: 0 <= k < i ==> tiles.neighbourList[k] == Wiring(k, grid.length, count)
        invariant forall k :: 0 <= k < tiles.Count() ==> tiles.objects[k] == None && tiles.aiWeight[k] == 0
      {
        var neighbourList := NeighbourProbes(i);
        WiringBounded(i, grid.length, count);
        tiles.neighbourList := tiles.neighbourList[i := neighbourList];
      }
    }

    /** The constructor's loop body for tile i: probe (x, z+1), (x, z-1), (x+1, z), (x-1, z) and keep what exists. */
    method NeighbourProbes(i: nat) returns (neighbourList: seq<TileId>)
      requires grid.Valid() && i < |grid.tileList|
      ensures neighbourList == Wiring(i, grid.length, |grid.tileList|)
    {
      var tile := grid.tileList[i];
      ghost var count, length := |grid.tileList|, grid.length;
      ProbesAreWiring(tile.indexX, tile.indexZ, i);
      neighbourList := [];
      var n := GetTileByIndex(tile.indexX, tile.indexZ + 1);
      if n.Some? {
        neighbourList := neighbourList + [n.value];
      }
      assert neighbourList == Probe(i + 1, count);
      n := GetTileByIndex(tile.indexX, tile.indexZ - 1);
      if n.Some? {
        neighbourList := neighbourList + [n.value];
      }
      assert neighbourList == Probe(i + 1, count) + Probe(i - 1, count);
      n := GetTileByIndex(tile.indexX + 1, tile.indexZ);
      if n.Some? {
        neighbourList := neighbourList + [n.value];
      }
      assert neighbourList == Probe(i + 1, count) + Probe(i - 1, count) + Probe(i + length, count);
      n := GetTileByIndex(tile.indexX - 1, tile.indexZ);
      if n.Some? {
        neighbourList := neighbourList + [n.value];
      }
    }

    /** The four probes of the tile at (x, z), flat index k, land on k + 1, k - 1, k + length and k - length. */
    lemma ProbesAreWiring(x: nat, z: nat, k: nat)
      requires grid.Valid() && x * grid.length + z == k
      ensures x * grid.length + (z + 1) == k + 1 && x * grid.length + (z - 1) == k - 1
      ensures (x + 1) * grid.length + z == k + grid.length && (x - 1) * grid.length + z == k - grid.length
    {
      assert (x + 1) * grid.length == x * grid.length + grid.length;
      assert (x - 1) * grid.length == x * grid.length - grid.length;
    }

    /** getTileByIndex: the tile at flat index column * length + row, checked only against the tile count. */
    function GetTileByIndex(column: int, row: int): (r: Option<TileId>)
      reads grid
      ensures r == (if 0 <= column * grid.length + row < |grid.tileList| then Some(column * grid.length + row) else None)
    {
      var tileID := column * grid.length + row;
      if tileID < 0 || tileID >= |grid.tileList| then None else Some(tileID)
    }

    /** Inside the board getTileByIndex finds the tile built for that column and row. */
    lemma GetTileByIndexInside(column: nat, row: nat)
      requires grid.Valid() && column < grid.width && row < grid.length
      ensures GetTileByIndex(column, row).Some?
      ensures grid.tileList[GetTileByIndex(column, row).value].indexX == column
      ensures grid.tileList[GetTileByIndex(column, row).value].indexZ == row
    {
      grid.TileAtCell(column, row);
    }

    /** setInTile: the tile holds the object and the object records the tile. */
    method SetInTile(occupant: Unit, targetTile: TileId)
      requires Valid() && targetTile < tiles.Count()
      modifies tiles, occupant
      ensures Valid()
      ensures tiles.objects == old(tiles.objects)[targetTile := Some(occupant)]
      ensures occupant.tile == Some(targetTile)
      ensures tiles.neighbourList == old(tiles.neighbourList) && tiles.distance == old(tiles.distance)
      ensures tiles.aiWeight == old(tiles.aiWeight)
      ensures occupant.factionData == old(occupant.factionData) && occupant.currentHP == old(occupant.currentHP)
      ensures occupant.pendingMove == old(occupant.pendingMove) && occupant.machineState == old(occupant.machineState)
    {
      tiles.SetObject(targetTile, Some(occupant));
      occupant.tile := Some(targetTile);
    }

    /**
     * getTilesWithinDistance: ring by ring up to dist rings, each ring's tiles
     * are kept when getDistance finds them within dist steps of src.
     */
    method GetTilesWithinDistance(src: TileId, dist: int, walkableOnly: bool) returns (closeList: seq<TileId>)
      requires Valid() && src < tiles.Count()
      modifies tiles
      ensures Valid() && RangeFrame(tiles, dist)
      ensures RangeResult(tiles.objects, tiles.neighbourList, src, closeList, walkableOnly, dist)
      ensures InRange(tiles.objects, tiles.neighbourList, src, dist, walkableOnly, closeList)
      ensures dist <= 0 ==> closeList == []
    {
      ghost var objects, nbrs := tiles.objects, tiles.neighbourList;
      var newOpenList := FirstRing(tiles, src, dist, walkableOnly);
      LeveledStart(newOpenList, objects, nbrs, src, dist, walkableOnly);
      closeList := [];
      ghost var answers: seq<map<TileId, int>> := [];
      QueriedIntro(newOpenList, closeList, objects, nbrs, src, dist, walkableOnly, answers);
      var i := 0;
      while i < dist
        invariant Valid() && RangeFrame(tiles, dist)
        invariant tiles.objects == objects && tiles.neighbourList == nbrs
        invariant i == |answers| && (if dist > 0 then i <= dist else i == 0)
        invariant AtDistance(tiles, newOpenList, walkableOnly, i + 1)
        invariant Queried(newOpenList, closeList, objects, nbrs, src, dist, walkableOnly, answers)
        invariant dist <= 0 ==> closeList == []
        decreases dist - i
      {
        ghost var d1, a := tiles.distance, map[];
        newOpenList, closeList, a := RangeIteration(tiles, src, dist, walkableOnly, newOpenList, closeList, answers);
        RewroteTrans(old(tiles.distance), d1, tiles.distance, dist);
        answers := answers + [a];
        i := i + 1;
      }
      QueriedIs(newOpenList, closeList, objects, nbrs, src, dist, walkableOnly, answers);
      LeveledIs(newOpenList, closeList, objects, nbrs, src, dist, walkableOnly, answers);
      ClosedInOrderIs(closeList, objects, nbrs, src, dist, walkableOnly, answers);
      assert RangeAnswer(objects, nbrs, src, dist, walkableOnly, answers, closeList);
      InRangeIs(objects, nbrs, src, dist, walkableOnly, closeList);
    }

    /** getAndPaintTilesForMove: the walkable range, which also becomes the painted set. */
    method GetAndPaintTilesForMove(src: TileId, dist: int) returns (ts: seq<TileId>)
      requires Valid() && src < tiles.Count()
      modifies this, tiles
      ensures Valid() && RangeFrame(tiles, dist)
      ensures RangeResult(tiles.objects, tiles.neighbourList, src, ts, true, dist)
      ensures InRange(tiles.objects, tiles.neighbourList, src, dist, true, ts)
      ensures paintedTiles == ts
    {
      ts := GetTilesWithinDistance(src, dist, true);
      paintedTiles := ts;
    }

    /**
     * getAndPaintTilesForAttack: of the range ignoring occupancy (which becomes
     * the painted set), the tiles holding a unit of another faction than the
     * unit on src.
     */
    method GetAndPaintTilesForAttack(src: TileId, dist: int) returns (ret: seq<TileId>, ghost inRange: seq<TileId>)
      requires Valid() && src < tiles.Count()
      requires tiles.objects[src].Some? && OccupantsInFactions(tiles.objects)
      modifies this, tiles
      ensures Valid() && RangeFrame(tiles, dist)
      ensures RangeResult(tiles.objects, tiles.neighbourList, src, inRange, false, dist)
      ensures InRange(tiles.objects, tiles.neighbourList, src, dist, false, inRange)
      ensures paintedTiles == inRange
      ensures ret == Enemies(inRange, tiles.objects, tiles.objects[src].value.factionData.value.faction)
    {
      var ts := GetTilesWithinDistance(src, dist, false);
      inRange := ts;
      var srcUnit := tiles.objects[src].value;
      assert tiles.objects[src] in tiles.objects;
      var faction := srcUnit.factionData.value.faction;
      ret := [];
      for i := 0 to |ts|
        invariant ret == Enemies(ts[..i], tiles.objects, faction)
      {
        var tile := ts[i];
        assert ts[..i + 1][..i] == ts[..i];
        assert tiles.objects[tile] in tiles.objects;
        var containEnemy := HoldsEnemy(tiles.objects[tile], faction);
        if containEnemy {
          ret := ret + [tile];
        }
      }
      assert ts[..|ts|] == ts;
      paintedTiles := ts;
    }
  }
}
