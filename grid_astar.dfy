/**
 * GridAStar: the two best-first searches over the tile graph (getDistance and
 * searchWalkableTile), their shared graph reset, and the path helpers.
 *
 * Because every scoreG stays 0, both searches are greedy best-first searches
 * ordered by the heuristic alone. What is proved is what such a search
 * guarantees: a failed search means no walk exists, a found path is a walk
 * along neighbour links, and the scratch state is clean again afterwards.
 */
module AStar {
  import opened Options
  import opened Grids
  import opened Tiles

  // ---------------------------------------------------------------------------
  // Walks over the neighbour graph
  // ---------------------------------------------------------------------------

  /** The i-th step of w goes to a listed neighbour that may be entered. */
  ghost predicate StepAt<O>(objects: seq<Option<O>>, nbrs: seq<seq<TileId>>, w: seq<TileId>, i: nat,
                            exempt: Option<TileId>, walkableOnly: bool)
    requires i + 1 < |w| && w[i] < |nbrs| && w[i + 1] < |objects|
  {
    w[i + 1] in nbrs[w[i]] && CanEnter(objects, w[i + 1], exempt, walkableOnly)
  }

  /** w is a non-empty sequence of tiles, each step a neighbour link into an enterable tile. */
  ghost predicate IsWalk<O>(objects: seq<Option<O>>, nbrs: seq<seq<TileId>>, w: seq<TileId>,
                            exempt: Option<TileId>, walkableOnly: bool)
  {
    && |w| >= 1
    && (forall i :: 0 <= i < |w| ==> w[i] < |objects| && w[i] < |nbrs|)
    && forall i :: 0 <= i < |w| - 1 ==> StepAt(objects, nbrs, w, i, exempt, walkableOnly)
  }

  /** Some walk leads from src to target. */
  ghost predicate Reachable<O>(objects: seq<Option<O>>, nbrs: seq<seq<TileId>>, src: TileId, target: TileId,
                               exempt: Option<TileId>, walkableOnly: bool)
  {
    exists w :: IsWalk(objects, nbrs, w, exempt, walkableOnly) && w[0] == src && w[|w| - 1] == target
  }

  /** A walk that starts inside a set of tiles closed under steps ends inside it. */
  lemma {:induction false} WalkStaysInside<O>(objects: seq<Option<O>>, nbrs: seq<seq<TileId>>, w: seq<TileId>,
                                              inside: set<TileId>, exempt: Option<TileId>, walkableOnly: bool)
    requires IsWalk(objects, nbrs, w, exempt, walkableOnly) && w[0] in inside
    requires forall c, k ::
               (c in inside && c < |nbrs| && k in nbrs[c] && k < |objects| && CanEnter(objects, k, exempt, walkableOnly))
               ==> k in inside
    ensures w[|w| - 1] in inside
  {
    if |w| > 1 {
      var w' := w[1..];
      assert StepAt(objects, nbrs, w, 0, exempt, walkableOnly);
      assert IsWalk(objects, nbrs, w', exempt, walkableOnly) by {
        forall i | 0 <= i < |w'| - 1
          ensures StepAt(objects, nbrs, w', i, exempt, walkableOnly)
        {
          assert StepAt(objects, nbrs, w, i + 1, exempt, walkableOnly);
        }
      }
      WalkStaysInside(objects, nbrs, w', inside, exempt, walkableOnly);
    }
  }

  // ---------------------------------------------------------------------------
  // Parent chains
  // ---------------------------------------------------------------------------

  /** depth strictly decreases along every parent link, so following parents terminates. */
  ghost predicate Ranked(parent: seq<Option<TileId>>, depth: seq<nat>)
  {
    && |depth| == |parent|
    && forall k :: 0 <= k < |parent| && parent[k].Some? ==> parent[k].value < |parent| && depth[parent[k].value] < depth[k]
  }

  /** The parent chain ending at k: from the first tile without a parent, link by link, to k. */
  ghost function Chain(parent: seq<Option<TileId>>, depth: seq<nat>, k: TileId): (c: seq<TileId>)
    requires Ranked(parent, depth) && k < |parent|
    ensures |c| >= 1 && c[|c| - 1] == k
    ensures forall i :: 0 <= i < |c| ==> c[i] < |parent|
    ensures parent[c[0]] == None
    ensures forall i :: 0 <= i < |c| - 1 ==> parent[c[i + 1]] == Some(c[i])
    decreases depth[k]
  {
    match parent[k]
    case None => [k]
    case Some(p) => Chain(parent, depth, p) + [k]
  }

  /** No tile occurs twice in w. */
  ghost predicate Simple(w: seq<TileId>)
  {
    forall i, j :: 0 <= i < j < |w| ==> w[i] != w[j]
  }

  /** Depth grows along a parent chain, so the chain never repeats a tile. */
  lemma {:induction false} ChainSimple(parent: seq<Option<TileId>>, depth: seq<nat>, k: TileId)
    requires Ranked(parent, depth) && k < |parent|
    ensures forall i :: 0 <= i < |Chain(parent, depth, k)| - 1 ==> depth[Chain(parent, depth, k)[i]] < depth[k]
    ensures Simple(Chain(parent, depth, k))
    decreases depth[k]
  {
    if parent[k].Some? {
      var p := parent[k].value;
      ChainSimple(parent, depth, p);
      var c := Chain(parent, depth, p);
      assert Chain(parent, depth, k) == c + [k];
      assert forall i :: 0 <= i < |c| ==> depth[c[i]] <= depth[p];
    }
  }

  // ---------------------------------------------------------------------------
  // The search invariant
  // ---------------------------------------------------------------------------

  /** No tile other than target occurs twice in xs. */
  ghost predicate OnlyTargetRepeats(xs: seq<TileId>, target: TileId)
  {
    forall i, j :: 0 <= i < j < |xs| && xs[i] == xs[j] ==> xs[i] == target
  }

  /** Tile p, already closed, is the parent of k: k is its neighbour, enterable, one level deeper. */
  ghost predicate ParentLink<O>(objects: seq<Option<O>>, nbrs: seq<seq<TileId>>, state: seq<ListState>,
                                depth: seq<nat>, k: TileId, p: TileId, target: TileId, walkableOnly: bool)
    requires k < |objects| && k < |depth|
  {
    && p < |state| && p < |nbrs| && p < |depth|
    && state[p] == Close
    && k in nbrs[p]
    && CanEnter(objects, k, Some(target), walkableOnly)
    && depth[k] == depth[p] + 1
  }

  /**
   * The state of a search from src toward target between two expansions.
   * current is the tile about to be expanded, or None right after an expansion.
   * Tiles in closeList are exactly the closed ones, tiles in openList exactly the
   * open ones (except current); every touched tile is on a list, current or the
   * target; every opened tile but src has a closed parent one level shallower
   * (the ghost depth); and every enterable neighbour of a closed tile has been
   * opened, so the closed tiles are closed under steps once the open list empties.
   * openExempt is the occupied tile the search may still open: the target for
   * getDistance, none for searchWalkableTile.
   */
  ghost predicate Frontier<O>(objects: seq<Option<O>>, nbrs: seq<seq<TileId>>, state: seq<ListState>,
                              parent: seq<Option<TileId>>, depth: seq<nat>,
                              src: TileId, target: TileId, openExempt: Option<TileId>, walkableOnly: bool,
                              openList: seq<TileId>, closeList: seq<TileId>, current: Option<TileId>)
  {
    && |objects| == |state| && |nbrs| == |state| && |parent| == |state| && |depth| == |state|
    && src < |state| && target < |state|
    && NeighboursInRange(nbrs, |state|)
    && Lists(state, parent, src, target, openList, closeList, current)
    && Tree(objects, nbrs, state, parent, depth, src, target, openExempt, walkableOnly)
    && ClosedUnderSteps(objects, nbrs, state, openExempt, walkableOnly)
  }

  /** The bookkeeping part of Frontier: which tiles are on which list. */
  ghost predicate Lists(state: seq<ListState>, parent: seq<Option<TileId>>, src: TileId, target: TileId,
                        openList: seq<TileId>, closeList: seq<TileId>, current: Option<TileId>)
    requires src < |state| && target < |state| && |parent| == |state|
  {
    var n := |state|;
    && (forall x :: x in openList ==> x < n)
    && (forall x :: x in closeList ==> x < n)
    && (current.Some? ==> current.value < n && state[current.value] != Close)
    && (current.Some? && current.value in openList ==> current.value == target)
    && (current.Some? && current.value != src ==> state[current.value] == Open)
    && (forall k :: 0 <= k < n ==> (state[k] == Close <==> k in closeList))
    && (forall k :: 0 <= k < n && current != Some(k) ==> (state[k] == Open <==> k in openList))
    && (state[src] == Close || current == Some(src))
    && state[target] != Close
    && (forall k :: 0 <= k < n && (state[k] != Unassigned || parent[k].Some?) ==>
          k in openList || k in closeList || current == Some(k) || k == target)
    && OnlyTargetRepeats(openList, target)
    && (forall i, j :: 0 <= i < j < |closeList| ==> closeList[i] != closeList[j])
  }

  /** The parent part of Frontier: every opened tile but src hangs below a closed parent. */
  ghost predicate Tree<O>(objects: seq<Option<O>>, nbrs: seq<seq<TileId>>, state: seq<ListState>,
                          parent: seq<Option<TileId>>, depth: seq<nat>,
                          src: TileId, target: TileId, openExempt: Option<TileId>, walkableOnly: bool)
    requires |objects| == |state| && |parent| == |state| && |depth| == |state| && src < |state|
  {
    var n := |state|;
    && parent[src] == None
    && (forall k :: 0 <= k < n && state[k] != Unassigned && k != src ==>
          parent[k].Some? && CanEnter(objects, k, openExempt, walkableOnly))
    && (forall k :: 0 <= k < n && parent[k].Some? ==>
          ParentLink(objects, nbrs, state, depth, k, parent[k].value, target, walkableOnly))
  }

  /** The closure part of Frontier: every enterable neighbour of a closed tile has been opened. */
  ghost predicate ClosedUnderSteps<O>(objects: seq<Option<O>>, nbrs: seq<seq<TileId>>, state: seq<ListState>,
                                      openExempt: Option<TileId>, walkableOnly: bool)
    requires |objects| == |state| && |nbrs| == |state|
  {
    forall c, k :: 0 <= c < |state| && state[c] == Close && k in nbrs[c] && k < |state| && CanEnter(objects, k, openExempt, walkableOnly) ==>
      state[k] != Unassigned
  }

  /** Expanding tile c opens neighbour k: an enterable neighbour that is Unassigned, or the target when it may be opened again. */
  ghost predicate Opens<O>(objects: seq<Option<O>>, nbrs: seq<seq<TileId>>, state: seq<ListState>, c: TileId, k: TileId,
                           target: TileId, openExempt: Option<TileId>, repeatTarget: bool, walkableOnly: bool)
    requires c < |nbrs| && k < |objects| && k < |state|
  {
    k in nbrs[c] && CanEnter(objects, k, openExempt, walkableOnly) && (state[k] == Unassigned || (repeatTarget && k == target))
  }

  /** The tiles not yet closed; each expansion removes one. */
  ghost function NotClosed(state: seq<ListState>): set<TileId>
  {
    set k | 0 <= k < |state| && state[k] != Close
  }

  /** The search starts in a clean graph with src as current. */
  lemma FrontierInit<O>(objects: seq<Option<O>>, nbrs: seq<seq<TileId>>, state: seq<ListState>, parent: seq<Option<TileId>>,
                        src: TileId, target: TileId, openExempt: Option<TileId>, walkableOnly: bool)
    requires |objects| == |state| && |nbrs| == |state| && |parent| == |state|
    requires src < |state| && target < |state| && NeighboursInRange(nbrs, |state|)
    requires forall k :: 0 <= k < |state| ==> state[k] == Unassigned && parent[k] == None
    ensures Frontier(objects, nbrs, state, parent, seq(|state|, _ => 0), src, target, openExempt, walkableOnly, [], [], Some(src))
  {
  }

  /**
   * The state after expanding c from (s0, p0, d0, open0): every enterable
   * Unassigned neighbour of c gets parent c and depth one more than c's; the
   * tiles Opens selects become Open (c itself is Close) and are appended to
   * the open list, in which only the target may repeat.
   */
  ghost predicate Expanded<O>(objects: seq<Option<O>>, nbrs: seq<seq<TileId>>, s0: seq<ListState>,
                              p0: seq<Option<TileId>>, d0: seq<nat>,
                              target: TileId, openExempt: Option<TileId>, repeatTarget: bool, walkableOnly: bool,
                              open0: seq<TileId>, c: TileId,
                              s3: seq<ListState>, p2: seq<Option<TileId>>, d2: seq<nat>, open3: seq<TileId>)
  {
    && |objects| == |s0| && |nbrs| == |s0| && |p0| == |s0| && |d0| == |s0| && c < |s0|
    && |p2| == |s0| && |d2| == |s0| && |s3| == |s0|
    && (forall k :: 0 <= k < |s0| ==>
          p2[k] == if k in nbrs[c] && CanEnter(objects, k, Some(target), walkableOnly) && s0[c := Close][k] == Unassigned
                   then Some(c) else p0[k])
    && (forall k :: 0 <= k < |s0| ==>
          d2[k] == if k in nbrs[c] && CanEnter(objects, k, Some(target), walkableOnly) && s0[c := Close][k] == Unassigned
                   then d0[c] + 1 else d0[k])
    && (forall k :: 0 <= k < |s0| ==>
          s3[k] == if Opens(objects, nbrs, s0[c := Close], c, k, target, openExempt, repeatTarget, walkableOnly)
                   then Open else s0[c := Close][k])
    && (forall x :: x in open3 ==> x < |s0|)
    && (forall k :: 0 <= k < |s0| ==>
          (k in open3 <==> k in open0 || Opens(objects, nbrs, s0[c := Close], c, k, target, openExempt, repeatTarget, walkableOnly)))
    && OnlyTargetRepeats(open3, target)
  }

  /** The bookkeeping after an expansion: c is closed and the opened tiles are on the open list. */
  lemma ExpandLists<O>(objects: seq<Option<O>>, nbrs: seq<seq<TileId>>, s0: seq<ListState>,
                       p0: seq<Option<TileId>>, d0: seq<nat>,
                       src: TileId, target: TileId, openExempt: Option<TileId>, repeatTarget: bool, walkableOnly: bool,
                       open0: seq<TileId>, close0: seq<TileId>, c: TileId,
                       s3: seq<ListState>, p2: seq<Option<TileId>>, d2: seq<nat>, open3: seq<TileId>)
    requires Frontier(objects, nbrs, s0, p0, d0, src, target, openExempt, walkableOnly, open0, close0, Some(c))
    requires c != target && (openExempt == None || openExempt == Some(target))
    requires Expanded(objects, nbrs, s0, p0, d0, target, openExempt, repeatTarget, walkableOnly, open0, c, s3, p2, d2, open3)
    ensures Lists(s3, p2, src, target, open3, close0 + [c], None)
  {
    var n := |s0|;
    var close1 := close0 + [c];
    forall k | 0 <= k < n
      ensures s3[k] == Close <==> k in close1
    {
      assert k in close1 <==> k in close0 || k == c;
    }
    forall k | 0 <= k < n
      ensures s3[k] == Open <==> k in open3
    {
      if k == c {
        assert c !in open0;
      }
    }
    forall k | 0 <= k < n && (s3[k] != Unassigned || p2[k].Some?)
      ensures k in open3 || k in close1 || k == target
    {
      assert k in close1 <==> k in close0 || k == c;
    }
  }

  /** The parent tree after an expansion: the opened tiles hang below c, one level deeper. */
  lemma ExpandTree<O>(objects: seq<Option<O>>, nbrs: seq<seq<TileId>>, s0: seq<ListState>,
                      p0: seq<Option<TileId>>, d0: seq<nat>,
                      src: TileId, target: TileId, openExempt: Option<TileId>, repeatTarget: bool, walkableOnly: bool,
                      open0: seq<TileId>, close0: seq<TileId>, c: TileId,
                      s3: seq<ListState>, p2: seq<Option<TileId>>, d2: seq<nat>, open3: seq<TileId>)
    requires Frontier(objects, nbrs, s0, p0, d0, src, target, openExempt, walkableOnly, open0, close0, Some(c))
    requires c != target && (openExempt == None || openExempt == Some(target))
    requires Expanded(objects, nbrs, s0, p0, d0, target, openExempt, repeatTarget, walkableOnly, open0, c, s3, p2, d2, open3)
    ensures Tree(objects, nbrs, s3, p2, d2, src, target, openExempt, walkableOnly)
  {
    var n := |s0|;
    forall k | 0 <= k < n && s3[k] != Unassigned && k != src
      ensures p2[k].Some? && CanEnter(objects, k, openExempt, walkableOnly)
    {
    }
    forall k | 0 <= k < n && p2[k].Some?
      ensures ParentLink(objects, nbrs, s3, d2, k, p2[k].value, target, walkableOnly)
    {
      if p2[k] == p0[k] {
        assert ParentLink(objects, nbrs, s0, d0, k, p0[k].value, target, walkableOnly);
      }
    }
  }

  /**
   * Expanding current c (closing it, processing its neighbours with every scoreG
   * at 0, then opening them) restores the invariant with no current tile, and
   * closes one more tile.
   */
  lemma Expand<O>(objects: seq<Option<O>>, nbrs: seq<seq<TileId>>, s0: seq<ListState>,
                  p0: seq<Option<TileId>>, d0: seq<nat>,
                  src: TileId, target: TileId, openExempt: Option<TileId>, repeatTarget: bool, walkableOnly: bool,
                  open0: seq<TileId>, close0: seq<TileId>, c: TileId,
                  s3: seq<ListState>, p2: seq<Option<TileId>>, d2: seq<nat>, open3: seq<TileId>)
    requires Frontier(objects, nbrs, s0, p0, d0, src, target, openExempt, walkableOnly, open0, close0, Some(c))
    requires c != target && (openExempt == None || openExempt == Some(target))
    requires Expanded(objects, nbrs, s0, p0, d0, target, openExempt, repeatTarget, walkableOnly, open0, c, s3, p2, d2, open3)
    ensures Frontier(objects, nbrs, s3, p2, d2, src, target, openExempt, walkableOnly, open3, close0 + [c], None)
    ensures NotClosed(s3) < NotClosed(s0)
  {
    var n := |s0|;
    ExpandLists(objects, nbrs, s0, p0, d0, src, target, openExempt, repeatTarget, walkableOnly, open0, close0, c, s3, p2, d2, open3);
    ExpandTree(objects, nbrs, s0, p0, d0, src, target, openExempt, repeatTarget, walkableOnly, open0, close0, c, s3, p2, d2, open3);
    forall c', k | 0 <= c' < n && s3[c'] == Close && k in nbrs[c'] && k < n && CanEnter(objects, k, openExempt, walkableOnly)
      ensures s3[k] != Unassigned
    {
    }
    assert NotClosed(s3) <= NotClosed(s0);
    assert c in NotClosed(s0) && c !in NotClosed(s3);
  }

  /** Removing the entry at index id from a list in which only the target repeats. */
  lemma RemoveAt(xs: seq<TileId>, id: nat, target: TileId)
    requires id < |xs| && OnlyTargetRepeats(xs, target)
    ensures forall k :: k in xs[..id] + xs[id + 1..] ==> k in xs
    ensures forall k :: k in xs && k != xs[id] ==> k in xs[..id] + xs[id + 1..]
    ensures xs[id] in xs[..id] + xs[id + 1..] ==> xs[id] == target
    ensures OnlyTargetRepeats(xs[..id] + xs[id + 1..], target)
  {
    var rest := xs[..id] + xs[id + 1..];
    forall j | 0 <= j < |rest|
      ensures rest[j] == xs[if j < id then j else j + 1]
    {
    }
    forall k | k in xs && k != xs[id]
      ensures k in rest
    {
      var j :| 0 <= j < |xs| && xs[j] == k;
      assert rest[if j < id then j else j - 1] == k;
    }
    forall i, j | 0 <= i < j < |rest| && rest[i] == rest[j]
      ensures rest[i] == target
    {
      var i' := if i < id then i else i + 1;
      var j' := if j < id then j else j + 1;
      assert xs[i'] == xs[j'] && i' < j';
    }
    if xs[id] in rest {
      var j :| 0 <= j < |rest| && rest[j] == xs[id];
      var j' := if j < id then j else j + 1;
      if j' < id {
        assert xs[j'] == xs[id];
      } else {
        assert xs[id] == xs[j'];
      }
    }
  }

  /** Taking the open tile at index id as the next current keeps the invariant. */
  lemma Select<O>(objects: seq<Option<O>>, nbrs: seq<seq<TileId>>, state: seq<ListState>,
                  parent: seq<Option<TileId>>, depth: seq<nat>,
                  src: TileId, target: TileId, openExempt: Option<TileId>, walkableOnly: bool,
                  openList: seq<TileId>, closeList: seq<TileId>, id: nat)
    requires Frontier(objects, nbrs, state, parent, depth, src, target, openExempt, walkableOnly, openList, closeList, None)
    requires id < |openList|
    ensures Frontier(objects, nbrs, state, parent, depth, src, target, openExempt, walkableOnly,
                     openList[..id] + openList[id + 1..], closeList, Some(openList[id]))
  {
    RemoveAt(openList, id, target);
    var rest := openList[..id] + openList[id + 1..];
    forall x | x in rest
      ensures x < |state|
    {
      assert x in openList;
    }
  }

  /** When the open list runs empty, the closed tiles are closed under steps, so the target cannot be reached. */
  lemma SearchExhausted<O>(objects: seq<Option<O>>, nbrs: seq<seq<TileId>>, state: seq<ListState>,
                           parent: seq<Option<TileId>>, depth: seq<nat>,
                           src: TileId, target: TileId, openExempt: Option<TileId>, walkableOnly: bool,
                           closeList: seq<TileId>)
    requires Frontier(objects, nbrs, state, parent, depth, src, target, openExempt, walkableOnly, [], closeList, None)
    ensures !Reachable(objects, nbrs, src, target, openExempt, walkableOnly)
  {
    var inside := set k | 0 <= k < |state| && state[k] == Close;
    forall w | IsWalk(objects, nbrs, w, openExempt, walkableOnly) && w[0] == src
      ensures w[|w| - 1] != target
    {
      WalkStaysInside(objects, nbrs, w, inside, openExempt, walkableOnly);
    }
  }

  /** When the open list runs dry, the closed tiles are exactly the tiles reachable from src. */
  lemma ExhaustedClosesReach<O>(objects: seq<Option<O>>, nbrs: seq<seq<TileId>>, state: seq<ListState>,
                                parent: seq<Option<TileId>>, depth: seq<nat>,
                                src: TileId, target: TileId, walkableOnly: bool, closeList: seq<TileId>)
    requires Frontier(objects, nbrs, state, parent, depth, src, target, None, walkableOnly, [], closeList, None)
    ensures forall k: TileId :: k in closeList <==> k < |state| && Reachable(objects, nbrs, src, k, None, walkableOnly)
  {
    var inside := set k | 0 <= k < |state| && state[k] == Close;
    forall k | k in closeList
      ensures k < |state| && Reachable(objects, nbrs, src, k, None, walkableOnly)
    {
      ChainFromSource(objects, nbrs, state, parent, depth, src, target, None, walkableOnly, [], closeList, None, k);
      WalkOfLength(objects, nbrs, Chain(parent, depth, k), src, k, None, walkableOnly);
    }
    forall k: TileId | k < |state| && Reachable(objects, nbrs, src, k, None, walkableOnly)
      ensures k in closeList
    {
      var w :| IsWalk(objects, nbrs, w, None, walkableOnly) && w[0] == src && w[|w| - 1] == k;
      WalkStaysInside(objects, nbrs, w, inside, None, walkableOnly);
    }
  }

  /**
   * The parent chain of any opened tile (or of src) starts at src and is a walk:
   * each link is a neighbour step into a tile the search was allowed to open.
   */
  lemma ChainFromSource<O>(objects: seq<Option<O>>, nbrs: seq<seq<TileId>>, state: seq<ListState>,
                           parent: seq<Option<TileId>>, depth: seq<nat>,
                           src: TileId, target: TileId, openExempt: Option<TileId>, walkableOnly: bool,
                           openList: seq<TileId>, closeList: seq<TileId>, current: Option<TileId>, k: TileId)
    requires Frontier(objects, nbrs, state, parent, depth, src, target, openExempt, walkableOnly, openList, closeList, current)
    requires k < |state| && (state[k] != Unassigned || k == src)
    ensures Ranked(parent, depth)
    ensures Chain(parent, depth, k)[0] == src
    ensures IsWalk(objects, nbrs, Chain(parent, depth, k), openExempt, walkableOnly)
  {
    assert Ranked(parent, depth) by {
      forall j | 0 <= j < |parent| && parent[j].Some?
        ensures parent[j].value < |parent| && depth[parent[j].value] < depth[j]
      {
        assert ParentLink(objects, nbrs, state, depth, j, parent[j].value, target, walkableOnly);
      }
    }
    var ch := Chain(parent, depth, k);
    forall i | 0 <= i < |ch|
      ensures state[ch[i]] != Unassigned || ch[i] == src
    {
      if i < |ch| - 1 {
        assert ParentLink(objects, nbrs, state, depth, ch[i + 1], ch[i], target, walkableOnly);
      }
    }
    forall i | 0 <= i < |ch| - 1
      ensures StepAt(objects, nbrs, ch, i, openExempt, walkableOnly)
    {
      assert ParentLink(objects, nbrs, state, depth, ch[i + 1], ch[i], target, walkableOnly);
    }
  }

  /** Before expanding c, every listed open tile is open and differs from c. */
  lemma OpenListIsOpen<O>(objects: seq<Option<O>>, nbrs: seq<seq<TileId>>, state: seq<ListState>,
                          parent: seq<Option<TileId>>, depth: seq<nat>,
                          src: TileId, target: TileId, openExempt: Option<TileId>, walkableOnly: bool,
                          openList: seq<TileId>, closeList: seq<TileId>, c: TileId)
    requires Frontier(objects, nbrs, state, parent, depth, src, target, openExempt, walkableOnly, openList, closeList, Some(c))
    requires c != target
    ensures forall x :: x in openList ==> x < |state| && x != c && state[x] == Open
  {
  }

  // ---------------------------------------------------------------------------
  // Operations
  // ---------------------------------------------------------------------------

  /** GridAStar.resetGraph: hTile and every tile of the two lists go back to Unassigned with no parent. */
  method ResetGraph<O>(tiles: TileGraph<O>, hTile: TileId, oList: seq<TileId>, cList: seq<TileId>)
    requires tiles.Valid() && hTile < tiles.Count()
    requires forall x :: x in oList ==> x < tiles.Count()
    requires forall x :: x in cList ==> x < tiles.Count()
    modifies tiles
    ensures tiles.Valid()
    ensures forall k :: 0 <= k < tiles.Count() ==>
              if k == hTile || k in oList || k in cList
              then tiles.listState[k] == Unassigned && tiles.parent[k] == None
              else tiles.listState[k] == old(tiles.listState[k]) && tiles.parent[k] == old(tiles.parent[k])
    ensures tiles.objects == old(tiles.objects) && tiles.neighbourList == old(tiles.neighbourList)
    ensures tiles.scoreG == old(tiles.scoreG) && tiles.scoreH == old(tiles.scoreH) && tiles.scoreF == old(tiles.scoreF)
    ensures tiles.distance == old(tiles.distance) && tiles.aiWeight == old(tiles.aiWeight)
  {
    tiles.listState := tiles.listState[hTile := Unassigned];
    tiles.parent := tiles.parent[hTile := None];
    for i := 0 to |oList|
      invariant tiles.Valid()
      invariant forall k :: 0 <= k < tiles.Count() ==>
                  if k == hTile || k in oList[..i]
                  then tiles.listState[k] == Unassigned && tiles.parent[k] == None
                  else tiles.listState[k] == old(tiles.listState[k]) && tiles.parent[k] == old(tiles.parent[k])
      invariant tiles.objects == old(tiles.objects) && tiles.neighbourList == old(tiles.neighbourList)
      invariant tiles.scoreG == old(tiles.scoreG) && tiles.scoreH == old(tiles.scoreH) && tiles.scoreF == old(tiles.scoreF)
      invariant tiles.distance == old(tiles.distance) && tiles.aiWeight == old(tiles.aiWeight)
    {
      assert oList[..i + 1] == oList[..i] + [oList[i]];
      assert oList[i] in oList;
      tiles.listState := tiles.listState[oList[i] := Unassigned];
      tiles.parent := tiles.parent[oList[i] := None];
    }
    assert oList[..|oList|] == oList;
    for i := 0 to |cList|
      invariant tiles.Valid()
      invariant forall k :: 0 <= k < tiles.Count() ==>
                  if k == hTile || k in oList || k in cList[..i]
                  then tiles.listState[k] == Unassigned && tiles.parent[k] == None
                  else tiles.listState[k] == old(tiles.listState[k]) && tiles.parent[k] == old(tiles.parent[k])
      invariant tiles.objects == old(tiles.objects) && tiles.neighbourList == old(tiles.neighbourList)
      invariant tiles.scoreG == old(tiles.scoreG) && tiles.scoreH == old(tiles.scoreH) && tiles.scoreF == old(tiles.scoreF)
      invariant tiles.distance == old(tiles.distance) && tiles.aiWeight == old(tiles.aiWeight)
    {
      assert cList[..i + 1] == cList[..i] + [cList[i]];
      assert cList[i] in cList;
      tiles.listState := tiles.listState[cList[i] := Unassigned];
      tiles.parent := tiles.parent[cList[i] := None];
    }
    assert cList[..|cList|] == cList;
  }

  /**
   * The open-list scan of getDistance (comparison <=): the index of the last
   * entry of least scoreF, or None for an empty list.
   */
  method LowestLast(openList: seq<TileId>, scoreF: seq<real>) returns (found: Option<nat>)
    requires forall j :: 0 <= j < |openList| ==> openList[j] < |scoreF|
    ensures found.None? <==> openList == []
    ensures found.Some? ==> found.value < |openList|
    ensures found.Some? ==> forall j :: 0 <= j < |openList| ==> scoreF[openList[found.value]] <= scoreF[openList[j]]
    ensures found.Some? ==> forall j :: found.value < j < |openList| ==> scoreF[openList[found.value]] < scoreF[openList[j]]
  {
    found := None;
    var lowest := 0.0;
    for i := 0 to |openList|
      invariant found.None? <==> i == 0
      invariant found.Some? ==> found.value < i && lowest == scoreF[openList[found.value]]
      invariant found.Some? ==> forall j :: 0 <= j < i ==> lowest <= scoreF[openList[j]]
      invariant found.Some? ==> forall j :: found.value < j < i ==> lowest < scoreF[openList[j]]
    {
      if found.None? || scoreF[openList[i]] <= lowest {
        lowest := scoreF[openList[i]];
        found := Some(i);
      }
    }
  }

  /**
   * The open-list scan of searchWalkableTile (comparison <): the index of the
   * first entry of least scoreF, or None for an empty list.
   */
  method LowestFirst(openList: seq<TileId>, scoreF: seq<real>) returns (found: Option<nat>)
    requires forall j :: 0 <= j < |openList| ==> openList[j] < |scoreF|
    ensures found.None? <==> openList == []
    ensures found.Some? ==> found.value < |openList|
    ensures found.Some? ==> forall j :: 0 <= j < |openList| ==> scoreF[openList[found.value]] <= scoreF[openList[j]]
    ensures found.Some? ==> forall j :: 0 <= j < found.value ==> scoreF[openList[found.value]] < scoreF[openList[j]]
  {
    found := None;
    var lowest := 0.0;
    for i := 0 to |openList|
      invariant found.None? <==> i == 0
      invariant found.Some? ==> found.value < i && lowest == scoreF[openList[found.value]]
      invariant found.Some? ==> forall j :: 0 <= j < i ==> lowest <= scoreF[openList[j]]
      invariant found.Some? ==> forall j :: 0 <= j < found.value ==> lowest < scoreF[openList[j]]
    {
      if found.None? || scoreF[openList[i]] < lowest {
        lowest := scoreF[openList[i]];
        found := Some(i);
      }
    }
  }

  /**
   * The opening loop of getDistance: every neighbour of c that may be entered
   * (free, or the target, when only walkable tiles count) and is still
   * Unassigned becomes Open and is appended to the open list.
   */
  method OpenForDistance<O>(tiles: TileGraph<O>, c: TileId, target: TileId, onlyWalkable: bool, openList: seq<TileId>)
    returns (openList': seq<TileId>)
    requires tiles.Valid() && c < tiles.Count() && target < tiles.Count()
    requires forall x :: x in openList ==> x < tiles.Count() && tiles.listState[x] != Unassigned
    requires OnlyTargetRepeats(openList, target)
    modifies tiles
    ensures tiles.Valid()
    ensures tiles.objects == old(tiles.objects) && tiles.neighbourList == old(tiles.neighbourList)
    ensures tiles.parent == old(tiles.parent) && tiles.scoreG == old(tiles.scoreG)
    ensures tiles.scoreH == old(tiles.scoreH) && tiles.scoreF == old(tiles.scoreF)
    ensures tiles.distance == old(tiles.distance) && tiles.aiWeight == old(tiles.aiWeight)
    ensures forall k :: 0 <= k < tiles.Count() ==>
              tiles.listState[k] == if Opens(tiles.objects, tiles.neighbourList, old(tiles.listState), c, k, target, Some(target), false, onlyWalkable)
                                    then Open else old(tiles.listState[k])
    ensures forall x :: x in openList' ==> x < tiles.Count()
    ensures forall k :: 0 <= k < tiles.Count() ==>
              (k in openList' <==> k in openList || Opens(tiles.objects, tiles.neighbourList, old(tiles.listState), c, k, target, Some(target), false, onlyWalkable))
    ensures OnlyTargetRepeats(openList', target)
  {
    var neighbours := tiles.GetNeighbourList(c, false);
    var state := tiles.listState;
    ghost var s0, objects := state, tiles.objects;
    openList' := openList;
    for n := 0 to |neighbours|
      invariant |state| == |s0|
      invariant forall k :: 0 <= k < |s0| ==>
                  state[k] == if k in neighbours[..n] && CanEnter(objects, k, Some(target), onlyWalkable) && s0[k] == Unassigned
                              then Open else s0[k]
      invariant forall x :: x in openList' ==> x < |s0| && state[x] != Unassigned
      invariant forall k :: 0 <= k < |s0| ==>
                  (k in openList' <==> k in openList || (k in neighbours[..n] && CanEnter(objects, k, Some(target), onlyWalkable) && s0[k] == Unassigned))
      invariant OnlyTargetRepeats(openList', target)
    {
      var neighbour := neighbours[n];
      assert neighbours[..n + 1] == neighbours[..n] + [neighbour];
      assert neighbour in neighbours;
      if onlyWalkable && tiles.objects[neighbour].Some? && neighbour != target {
        continue;
      }
      if state[neighbour] == Unassigned {
        state := state[neighbour := Open];
        openList' := openList' + [neighbour];
      }
    }
    assert neighbours[..|neighbours|] == neighbours;
    tiles.listState := state;
  }

  /** The walk-back loop of getDistance: the number of parent links from k up to a tile without a parent. */
  method ParentChainLength<O>(tiles: TileGraph<O>, k: TileId, ghost depth: seq<nat>) returns (counter: nat)
    requires Ranked(tiles.parent, depth) && k < |tiles.parent|
    ensures counter == |Chain(tiles.parent, depth, k)| - 1
  {
    counter := 0;
    var currentTile: Option<TileId> := Some(k);
    while currentTile.Some?
      invariant currentTile.Some? ==> currentTile.value < |tiles.parent|
      invariant currentTile.Some? ==> counter + |Chain(tiles.parent, depth, currentTile.value)| == |Chain(tiles.parent, depth, k)|
      invariant currentTile.None? ==> counter + 1 == |Chain(tiles.parent, depth, k)|
      decreases if currentTile.Some? then depth[currentTile.value] + 1 else 0
    {
      var nextTile := tiles.parent[currentTile.value];
      if nextTile.Some? {
        counter := counter + 1;
      }
      currentTile := nextTile;
    }
  }

  /** Resetting the target and both lists after a search leaves every tile Unassigned with no parent. */
  lemma ResetClean(state: seq<ListState>, parent: seq<Option<TileId>>, state': seq<ListState>, parent': seq<Option<TileId>>,
                   src: TileId, target: TileId, openList: seq<TileId>, closeList: seq<TileId>, current: Option<TileId>)
    requires src < |state| && target < |state| && |parent| == |state|
    requires Lists(state, parent, src, target, openList, closeList, current)
    requires current.None? || current == Some(target)
    requires |state'| == |state| && |parent'| == |state|
    requires forall k :: 0 <= k < |state| ==>
               if k == target || k in openList || k in closeList
               then state'[k] == Unassigned && parent'[k] == None
               else state'[k] == state[k] && parent'[k] == parent[k]
    ensures forall k :: 0 <= k < |state'| ==> state'[k] == Unassigned && parent'[k] == None
  {
  }

  /**
   * One expansion of either search: close current, process its neighbours and
   * open them. getDistance (bySearch false) opens the enterable Unassigned
   * neighbours; searchWalkableTile (bySearch true) opens the free (or all)
   * neighbours that are Unassigned or the destination.
   */
  method Expansion<O>(tiles: TileGraph<O>, current: TileId, src: TileId, target: TileId, onlyWalkable: bool, bySearch: bool,
                      openList: seq<TileId>, closeList: seq<TileId>, ghost depth: seq<nat>)
    returns (openList': seq<TileId>, closeList': seq<TileId>, ghost depth': seq<nat>)
    requires tiles.Valid() && tiles.GZero() && current != target
    requires Frontier(tiles.objects, tiles.neighbourList, tiles.listState, tiles.parent, depth,
                      src, target, if bySearch then None else Some(target), onlyWalkable, openList, closeList, Some(current))
    modifies tiles
    ensures tiles.Valid() && tiles.GZero()
    ensures tiles.objects == old(tiles.objects) && tiles.neighbourList == old(tiles.neighbourList)
    ensures tiles.distance == old(tiles.distance) && tiles.aiWeight == old(tiles.aiWeight)
    ensures Frontier(tiles.objects, tiles.neighbourList, tiles.listState, tiles.parent, depth',
                     src, target, if bySearch then None else Some(target), onlyWalkable, openList', closeList', None)
    ensures NotClosed(tiles.listState) < NotClosed(old(tiles.listState))
    ensures closeList' == closeList + [current]
    ensures old(tiles.listState[target]) == Unassigned && target in tiles.neighbourList[current] ==>
              tiles.parent[target] == Some(current)
    ensures old(tiles.listState[target]) != Unassigned ==>
              tiles.parent[target] == old(tiles.parent[target]) && tiles.listState[target] != Unassigned
    ensures !bySearch && target in tiles.neighbourList[current] ==> tiles.listState[target] != Unassigned
  {
    ghost var openExempt := if bySearch then None else Some(target);
    ghost var s0, p0 := tiles.listState, tiles.parent;
    ghost var objs, nbrs := tiles.objects, tiles.neighbourList;
    OpenListIsOpen(objs, nbrs, s0, p0, depth, src, target, openExempt, onlyWalkable, openList, closeList, current);
    closeList' := closeList + [current];
    tiles.listState := tiles.listState[current := Close];
    ghost var g0, h0, f0 := tiles.scoreG, tiles.scoreH, tiles.scoreF;
    if onlyWalkable {
      tiles.ProcessWalkableNeighbour(current, target);
    } else {
      tiles.ProcessAllNeighbour(current, target);
    }
    tiles.ProcessKeepsZeroG(current, target, onlyWalkable, g0, h0, f0, p0);
    ghost var around := nbrs[current];
    ghost var s1 := s0[current := Close];
    depth' := seq(|depth|, k requires 0 <= k < |depth| =>
                if k in around && k < |objs| && k < |s1| && CanEnter(objs, k, Some(target), onlyWalkable) && s1[k] == Unassigned
                then depth[current] + 1 else depth[k]);
    if bySearch {
      openList' := OpenForSearch(tiles, current, target, onlyWalkable, openList);
    } else {
      openList' := OpenForDistance(tiles, current, target, onlyWalkable, openList);
    }
    Expand(objs, nbrs, s0, p0, depth, src, target, openExempt, bySearch, onlyWalkable, openList, closeList, current,
           tiles.listState, tiles.parent, depth', openList');
  }

  /**
   * The opening loop of searchWalkableTile: every neighbour of c returned by
   * getNeighbourList(onlyWalkable) that is Unassigned, or is the destination,
   * becomes Open and is appended (the destination possibly more than once).
   */
  method OpenForSearch<O>(tiles: TileGraph<O>, c: TileId, dest: TileId, onlyWalkable: bool, openList: seq<TileId>)
    returns (openList': seq<TileId>)
    requires tiles.Valid() && c < tiles.Count() && dest < tiles.Count()
    requires forall x :: x in openList ==> x < tiles.Count() && tiles.listState[x] != Unassigned
    requires OnlyTargetRepeats(openList, dest)
    modifies tiles
    ensures tiles.Valid()
    ensures tiles.objects == old(tiles.objects) && tiles.neighbourList == old(tiles.neighbourList)
    ensures tiles.parent == old(tiles.parent) && tiles.scoreG == old(tiles.scoreG)
    ensures tiles.scoreH == old(tiles.scoreH) && tiles.scoreF == old(tiles.scoreF)
    ensures tiles.distance == old(tiles.distance) && tiles.aiWeight == old(tiles.aiWeight)
    ensures forall k :: 0 <= k < tiles.Count() ==>
              tiles.listState[k] == if Opens(tiles.objects, tiles.neighbourList, old(tiles.listState), c, k, dest, None, true, onlyWalkable)
                                    then Open else old(tiles.listState[k])
    ensures forall x :: x in openList' ==> x < tiles.Count()
    ensures forall k :: 0 <= k < tiles.Count() ==>
              (k in openList' <==> k in openList || Opens(tiles.objects, tiles.neighbourList, old(tiles.listState), c, k, dest, None, true, onlyWalkable))
    ensures OnlyTargetRepeats(openList', dest)
  {
    var neighbours := tiles.GetNeighbourList(c, onlyWalkable);
    forall k | 0 <= k < tiles.Count()
      ensures k in neighbours <==> k in tiles.neighbourList[c] && CanEnter(tiles.objects, k, None, onlyWalkable)
    {
      UnoccupiedMembers(tiles.neighbourList[c], tiles.objects, k);
    }
    var state := tiles.listState;
    ghost var s0 := state;
    openList' := openList;
    for n := 0 to |neighbours|
      invariant |state| == |s0|
      invariant forall k :: 0 <= k < |s0| ==>
                  state[k] == if k in neighbours[..n] && (s0[k] == Unassigned || k == dest) then Open else s0[k]
      invariant forall x :: x in openList' ==> x < |s0| && state[x] != Unassigned
      invariant forall k :: 0 <= k < |s0| ==>
                  (k in openList' <==> k in openList || (k in neighbours[..n] && (s0[k] == Unassigned || k == dest)))
      invariant OnlyTargetRepeats(openList', dest)
    {
      var neighbour := neighbours[n];
      assert neighbours[..n + 1] == neighbours[..n] + [neighbour];
      assert neighbour in neighbours;
      if state[neighbour] == Unassigned || neighbour == dest {
        state := state[neighbour := Open];
        openList' := openList' + [neighbour];
      }
    }
    assert neighbours[..|neighbours|] == neighbours;
    tiles.listState := state;
  }

  /** A walk from src to target shows that target is reachable by a walk of that length. */
  lemma WalkOfLength<O>(objects: seq<Option<O>>, nbrs: seq<seq<TileId>>, w: seq<TileId>, src: TileId, target: TileId,
                        exempt: Option<TileId>, walkableOnly: bool)
    requires IsWalk(objects, nbrs, w, exempt, walkableOnly) && w[0] == src && w[|w| - 1] == target
    ensures Reachable(objects, nbrs, src, target, exempt, walkableOnly)
    ensures exists w' :: IsWalk(objects, nbrs, w', exempt, walkableOnly) && |w'| == |w| && w'[0] == src && w'[|w'| - 1] == target
  {
  }

  /** resetGraph at the end of a search: afterwards the graph is clean again. */
  method ResetAfterSearch<O>(tiles: TileGraph<O>, target: TileId, openList: seq<TileId>, closeList: seq<TileId>,
                             ghost src: TileId, ghost current: Option<TileId>)
    requires tiles.Valid() && tiles.GZero() && src < tiles.Count() && target < tiles.Count()
    requires Lists(tiles.listState, tiles.parent, src, target, openList, closeList, current)
    requires current.None? || current == Some(target)
    modifies tiles
    ensures tiles.Valid() && tiles.Clean() && tiles.GZero()
    ensures tiles.objects == old(tiles.objects) && tiles.neighbourList == old(tiles.neighbourList)
    ensures tiles.distance == old(tiles.distance) && tiles.aiWeight == old(tiles.aiWeight)
  {
    ghost var s, p := tiles.listState, tiles.parent;
    ResetGraph(tiles, target, openList, closeList);
    ResetClean(s, p, tiles.listState, tiles.parent, src, target, openList, closeList, current);
  }

  /**
   * The main loop of getDistance: expand and select (comparison <=) until
   * the target is current, or the open list runs empty (current None, where
   * getDistance gives up with -1).
   */
  method DistanceLoop<O>(tiles: TileGraph<O>, src: TileId, target: TileId, onlyWalkable: bool)
    returns (openList: seq<TileId>, closeList: seq<TileId>, currentTile: Option<TileId>, ghost depth: seq<nat>)
    requires tiles.Valid() && tiles.Clean() && tiles.GZero()
    requires src < tiles.Count() && target < tiles.Count()
    modifies tiles
    ensures tiles.Valid() && tiles.GZero()
    ensures tiles.objects == old(tiles.objects) && tiles.neighbourList == old(tiles.neighbourList)
    ensures tiles.distance == old(tiles.distance) && tiles.aiWeight == old(tiles.aiWeight)
    ensures Frontier(tiles.objects, tiles.neighbourList, tiles.listState, tiles.parent, depth,
                     src, target, Some(target), onlyWalkable, openList, closeList, currentTile)
    ensures currentTile == Some(target) || (currentTile.None? && openList == [])
    ensures src == target ==> currentTile == Some(src) && tiles.parent[src].None?
    ensures src != target && target in tiles.neighbourList[src] && currentTile == Some(target) ==>
              tiles.parent[target] == Some(src)
  {
    closeList := [];
    openList := [];
    currentTile := Some(src);
    depth := seq(tiles.Count(), _ => 0);
    FrontierInit(tiles.objects, tiles.neighbourList, tiles.listState, tiles.parent, src, target, Some(target), onlyWalkable);
    while currentTile != Some(target)
      invariant currentTile.Some?
      invariant tiles.Valid() && tiles.GZero()
      invariant tiles.objects == old(tiles.objects) && tiles.neighbourList == old(tiles.neighbourList)
      invariant tiles.distance == old(tiles.distance) && tiles.aiWeight == old(tiles.aiWeight)
      invariant Frontier(tiles.objects, tiles.neighbourList, tiles.listState, tiles.parent, depth,
                         src, target, Some(target), onlyWalkable, openList, closeList, currentTile)
      invariant src != target && target in tiles.neighbourList[src] ==>
                  (currentTile == Some(src) && tiles.listState[target] == Unassigned)
                  || (tiles.parent[target] == Some(src) && tiles.listState[target] != Unassigned)
      decreases NotClosed(tiles.listState)
    {
      openList, closeList, depth := Expansion(tiles, currentTile.value, src, target, onlyWalkable, false, openList, closeList, depth);
      forall j | 0 <= j < |openList|
        ensures openList[j] < |tiles.scoreF|
      {
        assert openList[j] in openList;
      }
      var found := LowestLast(openList, tiles.scoreF);
      if found.None? {
        currentTile := None;
        return;
      }
      Select(tiles.objects, tiles.neighbourList, tiles.listState, tiles.parent, depth, src, target, Some(target), onlyWalkable, openList, closeList, found.value);
      currentTile := Some(openList[found.value]);
      openList := openList[..found.value] + openList[found.value + 1..];
    }
  }

  /** A listed neighbour other than src is reachable in one step when the search may enter it (the target always may). */
  lemma AdjacentReachable<O>(objects: seq<Option<O>>, nbrs: seq<seq<TileId>>, src: TileId, target: TileId, walkableOnly: bool)
    requires src < |objects| && src < |nbrs| && target < |objects| && target < |nbrs|
    ensures src != target && target in nbrs[src] ==> Reachable(objects, nbrs, src, target, Some(target), walkableOnly)
  {
    if src != target && target in nbrs[src] {
      assert StepAt(objects, nbrs, [src, target], 0, Some(target), walkableOnly);
      assert IsWalk(objects, nbrs, [src, target], Some(target), walkableOnly);
    }
  }

  /**
   * GridAStar.getDistance: the number of steps on the path a greedy search
   * finds from src to target, or -1 when the search exhausts its open list.
   * With onlyWalkable, occupied tiles other than the target cannot be entered.
   * The result is -1 exactly when no walk reaches the target; otherwise it is
   * the length of one walk from src to target that visits no tile twice (the
   * parent chain; not necessarily the shortest walk). A target that src lists
   * as a neighbour is answered 1: it is opened with parent src on the first
   * expansion and an open tile is never re-parented, since every scoreG is 0.
   * The search scratch is clean again afterwards.
   */
  method GetDistance<O>(tiles: TileGraph<O>, src: TileId, target: TileId, onlyWalkable: bool) returns (d: int)
    requires tiles.Valid() && tiles.Clean() && tiles.GZero()
    requires src < tiles.Count() && target < tiles.Count()
    modifies tiles
    ensures tiles.Valid() && tiles.Clean() && tiles.GZero()
    ensures tiles.objects == old(tiles.objects) && tiles.neighbourList == old(tiles.neighbourList)
    ensures tiles.distance == old(tiles.distance) && tiles.aiWeight == old(tiles.aiWeight)
    ensures src == target ==> d == 0
    ensures d == -1 <==> !Reachable(tiles.objects, tiles.neighbourList, src, target, Some(target), onlyWalkable)
    ensures d != -1 ==> d >= 0 && exists w :: IsWalk(tiles.objects, tiles.neighbourList, w, Some(target), onlyWalkable)
                                               && Simple(w) && |w| == d + 1 && w[0] == src && w[|w| - 1] == target
    ensures src != target && target in tiles.neighbourList[src] ==> d == 1
  {
    AdjacentReachable(tiles.objects, tiles.neighbourList, src, target, onlyWalkable);
    var openList, closeList, currentTile, depth := DistanceLoop(tiles, src, target, onlyWalkable);
    if currentTile.None? {
      SearchExhausted(tiles.objects, tiles.neighbourList, tiles.listState, tiles.parent, depth, src, target, Some(target), onlyWalkable, closeList);
      ResetAfterSearch(tiles, target, openList, closeList, src, None);
      return -1;
    }
    ChainFromSource(tiles.objects, tiles.neighbourList, tiles.listState, tiles.parent, depth,
                    src, target, Some(target), onlyWalkable, openList, closeList, Some(target), target);
    var counter := ParentChainLength(tiles, target, depth);
    ChainSimple(tiles.parent, depth, target);
    if src != target && target in tiles.neighbourList[src] {
      assert Chain(tiles.parent, depth, target) == Chain(tiles.parent, depth, src) + [target];
    }
    assert Simple(Chain(tiles.parent, depth, target));
    ResetAfterSearch(tiles, target, openList, closeList, src, Some(target));
    d := counter;
  }

  // ---------------------------------------------------------------------------
  // searchWalkableTile and its helpers
  // ---------------------------------------------------------------------------

  /** The squared distance from dest to each tile of closeList, in list order. */
  ghost function DistancesTo(coords: seq<TileCoord>, closeList: seq<TileId>, dest: TileId): (ds: seq<real>)
    requires dest < |coords| && forall j :: 0 <= j < |closeList| ==> closeList[j] < |coords|
    ensures |ds| == |closeList|
  {
    seq(|closeList|, j requires 0 <= j < |closeList| => SquaredDistance(coords[dest], coords[closeList[j]]))
  }

  /**
   * The fallback choice among distances ds: index i is a record (strictly nearer
   * than every earlier entry); no earlier record is within the threshold; and i
   * is within the threshold or nearest overall. So i is the first record within
   * the threshold, or failing that the first nearest entry.
   */
  ghost predicate FallbackPick(ds: seq<real>, i: nat, threshold: real)
  {
    && i < |ds|
    && (forall j :: 0 <= j < i ==> ds[i] < ds[j])
    && (ds[i] < threshold || forall j :: 0 <= j < |ds| ==> ds[i] <= ds[j])
    && (forall j :: 0 <= j < i && ds[j] < threshold ==> exists m :: 0 <= m < j && ds[m] <= ds[j])
  }

  /** The fallback choice is determined by the distances and the threshold. */
  lemma FallbackPickUnique(ds: seq<real>, i: nat, i': nat, threshold: real)
    requires FallbackPick(ds, i, threshold) && FallbackPick(ds, i', threshold)
    ensures i == i'
  {
  }

  /**
   * The fallback scan of searchWalkableTile over the closed tiles: keep the
   * strictly nearest tile to dest seen so far and stop at the first one closer
   * than the threshold. None only for an empty list.
   */
  method NearestClosed(coords: seq<TileCoord>, closeList: seq<TileId>, dest: TileId, threshold: real) returns (found: Option<nat>)
    requires dest < |coords| && forall j :: 0 <= j < |closeList| ==> closeList[j] < |coords|
    ensures found.None? <==> closeList == []
    ensures found.Some? ==> FallbackPick(DistancesTo(coords, closeList, dest), found.value, threshold)
  {
    ghost var ds := DistancesTo(coords, closeList, dest);
    found := None;
    var currentLowest := 0.0;
    var i := 0;
    while i < |closeList|
      invariant 0 <= i <= |closeList|
      invariant found.None? <==> i == 0
      invariant found.Some? ==> found.value < i && currentLowest == ds[found.value]
      invariant found.Some? ==> forall j :: 0 <= j < i ==> currentLowest <= ds[j]
      invariant found.Some? ==> forall j :: 0 <= j < found.value ==> currentLowest < ds[j]
      invariant found.Some? ==> threshold <= currentLowest
      invariant forall j :: 0 <= j < i && ds[j] < threshold ==> exists m :: 0 <= m < j && ds[m] <= ds[j]
    {
      var dist := SquaredDistance(coords[dest], coords[closeList[i]]);
      assert dist == ds[i];
      if found.None? || dist < currentLowest {
        currentLowest := dist;
        found := Some(i);
        if dist < threshold {
          break;
        }
      }
      i := i + 1;
    }
  }

  /** The tiles the walk-back loop collects from k: k and its ancestors, stopping before origin or a tile without a parent. */
  ghost function Back(parent: seq<Option<TileId>>, depth: seq<nat>, k: TileId, origin: TileId): seq<TileId>
    requires Ranked(parent, depth) && k < |parent|
    decreases depth[k]
  {
    if k == origin || parent[k] == Some(k) then []
    else match parent[k]
      case None => [k]
      case Some(p) => [k] + Back(parent, depth, p, origin)
  }

  /**
   * One link of the walk back: when whole is path followed by the walk back
   * from k, it is also path with k appended followed by the walk back from k's
   * parent, whose depth is smaller.
   */
  lemma BackStep(parent: seq<Option<TileId>>, depth: seq<nat>, k: TileId, origin: TileId,
                 whole: seq<TileId>, path: seq<TileId>)
    requires Ranked(parent, depth) && k < |parent| && k != origin && parent[k] != Some(k)
    requires whole == path + Back(parent, depth, k, origin)
    ensures parent[k].Some? ==> parent[k].value < |parent| && depth[parent[k].value] < depth[k]
    ensures whole == (path + [k]) + (if parent[k].Some? then Back(parent, depth, parent[k].value, origin) else [])
  {
    var rest := if parent[k].Some? then Back(parent, depth, parent[k].value, origin) else [];
    assert Back(parent, depth, k, origin) == [k] + rest;
    assert path + ([k] + rest) == (path + [k]) + rest;
  }

  /** Walking back from k toward origin lists the parent chain of k in reverse, without origin. */
  lemma {:induction false} BackReversesChain(parent: seq<Option<TileId>>, depth: seq<nat>, k: TileId, origin: TileId)
    requires Ranked(parent, depth) && k < |parent| && Chain(parent, depth, k)[0] == origin
    ensures |Back(parent, depth, k, origin)| == |Chain(parent, depth, k)| - 1
    ensures forall i :: 0 <= i < |Back(parent, depth, k, origin)| ==>
              Back(parent, depth, k, origin)[i] == Chain(parent, depth, k)[|Chain(parent, depth, k)| - 1 - i]
    decreases depth[k]
  {
    if k != origin {
      match parent[k]
      case None =>
      case Some(p) =>
        BackReversesChain(parent, depth, p, origin);
    }
  }

  /** The walk-back loop of searchWalkableTile: from the end tile, collect tiles up the parent chain until origin. */
  method PathBack<O>(tiles: TileGraph<O>, start: Option<TileId>, origin: TileId, ghost depth: seq<nat>) returns (path: seq<TileId>)
    requires Ranked(tiles.parent, depth) && (start.Some? ==> start.value < |tiles.parent|)
    ensures path == if start.None? then [] else Back(tiles.parent, depth, start.value, origin)
  {
    ghost var parent := tiles.parent;
    ghost var whole := if start.None? then [] else Back(parent, depth, start.value, origin);
    path := [];
    var currentTile: Option<TileId> := start;
    while currentTile.Some?
      invariant currentTile.Some? ==> currentTile.value < |parent|
      invariant whole == path + (if currentTile.Some? then Back(parent, depth, currentTile.value, origin) else [])
      decreases if currentTile.Some? then depth[currentTile.value] + 1 else 0
    {
      var k := currentTile.value;
      if k == origin || tiles.parent[k] == Some(k) {
        break;
      }
      BackStep(parent, depth, k, origin, whole, path);
      path := path + [k];
      currentTile := tiles.parent[k];
    }
  }

  /** GridAStar.invertTileArray: the list in reverse order. */
  method InvertTileArray(p: seq<TileId>) returns (pInverted: seq<TileId>)
    ensures |pInverted| == |p|
    ensures forall i :: 0 <= i < |p| ==> pInverted[i] == p[|p| - 1 - i]
  {
    pInverted := [];
    for i := 0 to |p|
      invariant |pInverted| == i
      invariant forall j :: 0 <= j < i ==> pInverted[j] == p[|p| - 1 - j]
    {
      pInverted := pInverted + [p[|p| - (i + 1)]];
    }
  }

  /** Reversing the walk-back of a chain rooted at origin gives the chain after origin, in travel order. */
  lemma TravelOrder(parent: seq<Option<TileId>>, depth: seq<nat>, k: TileId, origin: TileId, path: seq<TileId>)
    requires Ranked(parent, depth) && k < |parent| && Chain(parent, depth, k)[0] == origin
    requires |path| == |Back(parent, depth, k, origin)|
    requires forall i :: 0 <= i < |path| ==> path[i] == Back(parent, depth, k, origin)[|path| - 1 - i]
    ensures [origin] + path == Chain(parent, depth, k)
  {
    BackReversesChain(parent, depth, k, origin);
  }

  /** The tile a path from origin ends on. */
  function EndOf(origin: TileId, path: seq<TileId>): TileId
  {
    if path == [] then origin else path[|path| - 1]
  }

  /**
   * The main loop of searchWalkableTile: expand and select (comparison <) until
   * the destination is current or the open list runs empty (current None).
   */
  method SearchLoop<O>(tiles: TileGraph<O>, origin: TileId, dest: TileId, onlyWalkeable: bool)
    returns (openList: seq<TileId>, closeList: seq<TileId>, currentTile: Option<TileId>, ghost depth: seq<nat>)
    requires tiles.Valid() && tiles.Clean() && tiles.GZero()
    requires origin < tiles.Count() && dest < tiles.Count()
    modifies tiles
    ensures tiles.Valid() && tiles.GZero()
    ensures tiles.objects == old(tiles.objects) && tiles.neighbourList == old(tiles.neighbourList)
    ensures tiles.distance == old(tiles.distance) && tiles.aiWeight == old(tiles.aiWeight)
    ensures Frontier(tiles.objects, tiles.neighbourList, tiles.listState, tiles.parent, depth,
                     origin, dest, None, onlyWalkeable, openList, closeList, currentTile)
    ensures currentTile == Some(dest) || (currentTile.None? && openList == [])
  {
    closeList := [];
    openList := [];
    currentTile := Some(origin);
    depth := seq(tiles.Count(), _ => 0);
    FrontierInit(tiles.objects, tiles.neighbourList, tiles.listState, tiles.parent, origin, dest, None, onlyWalkeable);
    while currentTile != Some(dest)
      invariant currentTile.Some?
      invariant tiles.Valid() && tiles.GZero()
      invariant tiles.objects == old(tiles.objects) && tiles.neighbourList == old(tiles.neighbourList)
      invariant tiles.distance == old(tiles.distance) && tiles.aiWeight == old(tiles.aiWeight)
      invariant Frontier(tiles.objects, tiles.neighbourList, tiles.listState, tiles.parent, depth,
                         origin, dest, None, onlyWalkeable, openList, closeList, currentTile)
      decreases NotClosed(tiles.listState)
    {
      openList, closeList, depth := Expansion(tiles, currentTile.value, origin, dest, onlyWalkeable, true, openList, closeList, depth);
      forall j | 0 <= j < |openList|
        ensures openList[j] < |tiles.scoreF|
      {
        assert openList[j] in openList;
      }
      var found := LowestFirst(openList, tiles.scoreF);
      if found.None? {
        currentTile := None;
        break;
      }
      Select(tiles.objects, tiles.neighbourList, tiles.listState, tiles.parent, depth, origin, dest, None, onlyWalkeable, openList, closeList, found.value);
      currentTile := Some(openList[found.value]);
      openList := openList[..found.value] + openList[found.value + 1..];
    }
  }

  /** The path-building tail of searchWalkableTile: walk back from the end tile, then invert. */
  method TravelPath<O>(tiles: TileGraph<O>, endTile: TileId, origin: TileId, ghost depth: seq<nat>) returns (path: seq<TileId>)
    requires Ranked(tiles.parent, depth) && endTile < |tiles.parent|
    requires Chain(tiles.parent, depth, endTile)[0] == origin
    ensures [origin] + path == Chain(tiles.parent, depth, endTile)
  {
    var back := PathBack(tiles, Some(endTile), origin, depth);
    path := InvertTileArray(back);
    TravelOrder(tiles.parent, depth, endTile, origin, path);
  }

  /** How searchWalkableTile's loop ended: at the destination exactly when it is reachable, otherwise with origin closed. */
  lemma SearchOutcome<O>(objects: seq<Option<O>>, nbrs: seq<seq<TileId>>, state: seq<ListState>,
                         parent: seq<Option<TileId>>, depth: seq<nat>, origin: TileId, dest: TileId, walkableOnly: bool,
                         openList: seq<TileId>, closeList: seq<TileId>, current: Option<TileId>)
    requires Frontier(objects, nbrs, state, parent, depth, origin, dest, None, walkableOnly, openList, closeList, current)
    requires current == Some(dest) || (current.None? && openList == [])
    ensures current.Some? <==> Reachable(objects, nbrs, origin, dest, None, walkableOnly)
    ensures current.None? ==> origin in closeList
    ensures forall j :: 0 <= j < |closeList| ==> closeList[j] < |state|
  {
    if current.None? {
      SearchExhausted(objects, nbrs, state, parent, depth, origin, dest, None, walkableOnly, closeList);
    } else {
      ChainFromSource(objects, nbrs, state, parent, depth, origin, dest, None, walkableOnly, openList, closeList, current, dest);
      WalkOfLength(objects, nbrs, Chain(parent, depth, dest), origin, dest, None, walkableOnly);
    }
    forall j | 0 <= j < |closeList|
      ensures closeList[j] < |state|
    {
      assert closeList[j] in closeList;
    }
  }

  /** The tile the path ends on has a parent chain from origin that is a walk. */
  lemma EndChain<O>(objects: seq<Option<O>>, nbrs: seq<seq<TileId>>, state: seq<ListState>,
                    parent: seq<Option<TileId>>, depth: seq<nat>, origin: TileId, dest: TileId, walkableOnly: bool,
                    openList: seq<TileId>, closeList: seq<TileId>, current: Option<TileId>, endK: TileId)
    requires Frontier(objects, nbrs, state, parent, depth, origin, dest, None, walkableOnly, openList, closeList, current)
    requires (current == Some(dest) && endK == dest) || (current.None? && endK in closeList)
    ensures Ranked(parent, depth) && endK < |parent|
    ensures Chain(parent, depth, endK)[0] == origin
    ensures IsWalk(objects, nbrs, Chain(parent, depth, endK), None, walkableOnly)
  {
    ChainFromSource(objects, nbrs, state, parent, depth, origin, dest, None, walkableOnly, openList, closeList, current, endK);
  }

  /**
   * The search proper of searchWalkableTile: the loop, then the tile the
   * path ends at, which is dest when dest is reachable and otherwise the
   * closed tile the fallback picks; its parent chain is a walk from origin.
   */
  method SearchEnd<O>(tiles: TileGraph<O>, tileSize: real, tileSpacing: real,
                      origin: TileId, dest: TileId, onlyWalkeable: bool)
    returns (openList: seq<TileId>, closeList: seq<TileId>, currentTile: Option<TileId>, ghost depth: seq<nat>,
             endK: TileId, ghost pick: nat)
    requires tiles.Valid() && tiles.Clean() && tiles.GZero()
    requires origin < tiles.Count() && dest < tiles.Count()
    modifies tiles
    ensures tiles.Valid() && tiles.GZero()
    ensures tiles.objects == old(tiles.objects) && tiles.neighbourList == old(tiles.neighbourList)
    ensures tiles.distance == old(tiles.distance) && tiles.aiWeight == old(tiles.aiWeight)
    ensures Lists(tiles.listState, tiles.parent, origin, dest, openList, closeList, currentTile)
    ensures currentTile.None? || currentTile == Some(dest)
    ensures Ranked(tiles.parent, depth) && endK < |tiles.parent|
    ensures Chain(tiles.parent, depth, endK)[0] == origin
    ensures IsWalk(tiles.objects, tiles.neighbourList, Chain(tiles.parent, depth, endK), None, onlyWalkeable)
    ensures Reachable(tiles.objects, tiles.neighbourList, origin, dest, None, onlyWalkeable) ==> endK == dest
    ensures !Reachable(tiles.objects, tiles.neighbourList, origin, dest, None, onlyWalkeable) ==>
              && (forall k: TileId :: k in closeList <==>
                    k < tiles.Count() && Reachable(tiles.objects, tiles.neighbourList, origin, k, None, onlyWalkeable))
              && (forall j :: 0 <= j < |closeList| ==> closeList[j] < tiles.Count())
              && (forall i, j :: 0 <= i < j < |closeList| ==> closeList[i] != closeList[j])
              && pick < |closeList| && closeList[pick] == endK
              && FallbackPick(DistancesTo(tiles.coords, closeList, dest), pick, (tileSize + tileSpacing * 0.5) * 1.5)
  {
    openList, closeList, currentTile, depth := SearchLoop(tiles, origin, dest, onlyWalkeable);
    SearchOutcome(tiles.objects, tiles.neighbourList, tiles.listState, tiles.parent, depth,
                  origin, dest, onlyWalkeable, openList, closeList, currentTile);
    pick := 0;
    var endTile := currentTile;
    if currentTile.None? {
      ExhaustedClosesReach(tiles.objects, tiles.neighbourList, tiles.listState, tiles.parent, depth,
                           origin, dest, onlyWalkeable, closeList);
      var tileSizeHalfGap := tileSize + tileSpacing * 0.5;
      var found := NearestClosed(tiles.coords, closeList, dest, tileSizeHalfGap * 1.5);
      endTile := Some(closeList[found.value]);
      pick := found.value;
    }
    endK := endTile.value;
    EndChain(tiles.objects, tiles.neighbourList, tiles.listState, tiles.parent, depth,
             origin, dest, onlyWalkeable, openList, closeList, currentTile, endK);
  }

  /**
   * GridAStar.searchWalkableTile: the path (without originTile) that a greedy
   * search follows from originTile toward destTile. With onlyWalkeable only free
   * tiles are entered, the destination included.
   * The path is always a walk from origin. When the destination can be reached
   * the path ends on it; otherwise the search exhausts its open list and the
   * path ends on the closed tile chosen by the fallback scan (closed is the
   * final closed list, pick the index chosen in it). The search scratch is clean
   * again afterwards.
   */
  method SearchWalkableTile<O>(tiles: TileGraph<O>, tileSize: real, tileSpacing: real,
                               origin: TileId, dest: TileId, onlyWalkeable: bool)
    returns (path: seq<TileId>, ghost closed: seq<TileId>, ghost pick: nat)
    requires tiles.Valid() && tiles.Clean() && tiles.GZero()
    requires origin < tiles.Count() && dest < tiles.Count()
    modifies tiles
    ensures tiles.Valid() && tiles.Clean() && tiles.GZero()
    ensures tiles.objects == old(tiles.objects) && tiles.neighbourList == old(tiles.neighbourList)
    ensures tiles.distance == old(tiles.distance) && tiles.aiWeight == old(tiles.aiWeight)
    ensures IsWalk(tiles.objects, tiles.neighbourList, [origin] + path, None, onlyWalkeable)
    ensures Reachable(tiles.objects, tiles.neighbourList, origin, dest, None, onlyWalkeable) ==> EndOf(origin, path) == dest
    ensures !Reachable(tiles.objects, tiles.neighbourList, origin, dest, None, onlyWalkeable) ==>
              && (forall k: TileId :: k in closed <==>
                    k < tiles.Count() && Reachable(tiles.objects, tiles.neighbourList, origin, k, None, onlyWalkeable))
              && (forall j :: 0 <= j < |closed| ==> closed[j] < tiles.Count())
              && (forall i, j :: 0 <= i < j < |closed| ==> closed[i] != closed[j])
              && pick < |closed| && closed[pick] == EndOf(origin, path)
              && FallbackPick(DistancesTo(tiles.coords, closed, dest), pick, (tileSize + tileSpacing * 0.5) * 1.5)
  {
    var openList, closeList, currentTile, depth, endK, p := SearchEnd(tiles, tileSize, tileSpacing, origin, dest, onlyWalkeable);
    closed, pick := closeList, p;
    path := TravelPath(tiles, endK, origin, depth);
    ResetAfterSearch(tiles, dest, openList, closeList, origin, currentTile);
  }
}
