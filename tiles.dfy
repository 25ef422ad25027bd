/**
 * Tiles: occupancy and the per-tile search scratch (Tile.TileAStar).
 *
 * A tile is identified by its flat index in the grid's tile list. Every
 * per-tile field the source updates in place (the occupant, the neighbour
 * list, the A* parent, scores and list state, the range-query distance and
 * the AI weight) is a sequence field of one TileGraph, indexed by tile.
 * The occupant type O stands for the tileable-object interface.
 */
module Tiles {
  import opened Options
  import opened Grids

  type TileId = nat

  datatype ListState = Unassigned | Open | Close

  /**
   * Whether a search may step onto tile k: any tile when occupancy is ignored,
   * otherwise a free tile or the exempt one (the search target, for the
   * process methods and the distance search).
   */
  predicate CanEnter<O>(objects: seq<Option<O>>, k: TileId, exempt: Option<TileId>, walkableOnly: bool)
    requires k < |objects|
  {
    !walkableOnly || objects[k].None? || exempt == Some(k)
  }

  /** Every neighbour listed is one of the n tiles. */
  ghost predicate NeighboursInRange(neighbourList: seq<seq<TileId>>, n: nat)
  {
    forall k :: 0 <= k < |neighbourList| ==> forall m :: m in neighbourList[k] ==> m < n
  }

  /** The tiles of ns, in order, whose occupant is empty. */
  function Unoccupied<O>(ns: seq<TileId>, objects: seq<Option<O>>): seq<TileId>
  {
    if ns == [] then []
    else (if ns[0] < |objects| && objects[ns[0]].None? then [ns[0]] else []) + Unoccupied(ns[1..], objects)
  }

  /** Filtering a list extended by one tile extends the filtered list by that tile when it is free. */
  lemma {:induction false} UnoccupiedSnoc<O>(ns: seq<TileId>, n: TileId, objects: seq<Option<O>>)
    ensures Unoccupied(ns + [n], objects)
         == Unoccupied(ns, objects) + (if n < |objects| && objects[n].None? then [n] else [])
  {
    if ns == [] {
      assert ns + [n] == [n];
    } else {
      assert (ns + [n])[1..] == ns[1..] + [n];
      UnoccupiedSnoc(ns[1..], n, objects);
    }
  }

  /** A tile is in the filtered list exactly when it is in the list and has no occupant. */
  lemma {:induction false} UnoccupiedMembers<O>(ns: seq<TileId>, objects: seq<Option<O>>, k: TileId)
    ensures k in Unoccupied(ns, objects) <==> k in ns && k < |objects| && objects[k].None?
  {
    if ns != [] {
      UnoccupiedMembers(ns[1..], objects, k);
      assert ns == [ns[0]] + ns[1..];
    }
  }

  /** Filtering never lengthens the list. */
  lemma {:induction false} UnoccupiedLength<O>(ns: seq<TileId>, objects: seq<Option<O>>)
    ensures |Unoccupied(ns, objects)| <= |ns|
  {
    if ns != [] {
      UnoccupiedLength(ns[1..], objects);
    }
  }

  class TileGraph<O> {
    /** Grid indices and placement of every tile, fixed when the grid is built. */
    const coords: seq<TileCoord>
    /** Tile.object: the occupant of each tile, None for null. */
    var objects: seq<Option<O>>
    /** TileAStar.neighbourList of each tile. */
    var neighbourList: seq<seq<TileId>>
    /** TileAStar.parent, scoreG, scoreH, scoreF and listState of each tile. */
    var parent: seq<Option<TileId>>
    var scoreG: seq<real>
    var scoreH: seq<real>
    var scoreF: seq<real>
    var listState: seq<ListState>
    /** Tile.distance, written by the range query. */
    var distance: seq<int>
    /** Tile.aiWeight, written by the AI controller. */
    var aiWeight: seq<int>

    function Count(): nat
    {
      |coords|
    }

    /** Every per-tile field has one entry per tile and every neighbour is a tile. */
    ghost predicate Valid()
      reads this
    {
      && |objects| == |coords|
      && |neighbourList| == |coords|
      && |parent| == |coords|
      && |scoreG| == |coords|
      && |scoreH| == |coords|
      && |scoreF| == |coords|
      && |listState| == |coords|
      && |distance| == |coords|
      && |aiWeight| == |coords|
      && NeighboursInRange(neighbourList, |coords|)
    }

    /** The between-searches state: every tile Unassigned with no parent. */
    ghost predicate Clean()
      reads this
    {
      && |parent| == |listState|
      && forall k :: 0 <= k < |listState| ==> listState[k] == Unassigned && parent[k] == None
    }

    /** Every scoreG is 0: it starts at 0 and is only ever copied from another tile's scoreG. */
    ghost predicate GZero()
      reads this
    {
      forall k :: 0 <= k < |scoreG| ==> scoreG[k] == 0.0
    }

    /** The search heuristic scoreH: squared distance from tile k to the target; never negative, 0 on the target. */
    function Heuristic(k: TileId, target: TileId): (h: real)
      requires k < Count() && target < Count()
      ensures h >= 0.0
      ensures k == target ==> h == 0.0
    {
      SquaredDistance(coords[k], coords[target])
    }

    /** Fresh tiles: no occupant, no neighbours yet, search state Unassigned with zero scores. */
    constructor (coords: seq<TileCoord>)
      ensures this.coords == coords
      ensures Valid() && Clean() && GZero()
      ensures forall k :: 0 <= k < |coords| ==> objects[k] == None && neighbourList[k] == []
      ensures forall k :: 0 <= k < |coords| ==> aiWeight[k] == 0
    {
      this.coords := coords;
      var n := |coords|;
      objects := seq(n, _ => None);
      neighbourList := seq(n, _ => []);
      parent := seq(n, _ => None);
      scoreG := seq(n, _ => 0.0);
      scoreH := seq(n, _ => 0.0);
      scoreF := seq(n, _ => 0.0);
      listState := seq(n, _ => Unassigned);
      distance := seq(n, _ => 0);
      aiWeight := seq(n, _ => 0);
    }

    /** Assignment to Tile.object: tile k now holds o and no other field of any tile changes. */
    method SetObject(k: TileId, o: Option<O>)
      requires Valid() && k < Count()
      modifies this
      ensures Valid()
      ensures objects == old(objects)[k := o]
      ensures neighbourList == old(neighbourList) && parent == old(parent) && listState == old(listState)
      ensures scoreG == old(scoreG) && scoreH == old(scoreH) && scoreF == old(scoreF)
      ensures distance == old(distance) && aiWeight == old(aiWeight)
    {
      objects := objects[k := o];
    }

    /** Assignment to Tile.distance: tile k now records d and no other field of any tile changes. */
    method SetDistance(k: TileId, d: int)
      requires Valid() && k < Count()
      modifies this
      ensures Valid()
      ensures distance == old(distance)[k := d]
      ensures objects == old(objects) && neighbourList == old(neighbourList) && parent == old(parent)
      ensures listState == old(listState) && scoreG == old(scoreG) && scoreH == old(scoreH)
      ensures scoreF == old(scoreF) && aiWeight == old(aiWeight)
    {
      distance := distance[k := d];
    }

    /** Assignment to Tile.aiWeight: tile k now weighs w and no other field of any tile changes. */
    method SetAiWeight(k: TileId, w: int)
      requires Valid() && k < Count()
      modifies this
      ensures Valid()
      ensures aiWeight == old(aiWeight)[k := w]
      ensures objects == old(objects) && neighbourList == old(neighbourList) && parent == old(parent)
      ensures listState == old(listState) && scoreG == old(scoreG) && scoreH == old(scoreH)
      ensures scoreF == old(scoreF) && distance == old(distance)
    {
      aiWeight := aiWeight[k := w];
    }

    /** TileAStar.getNeighbourList: the free neighbours in order, or a copy of all of them. */
    method GetNeighbourList(t: TileId, walkableOnly: bool) returns (newList: seq<TileId>)
      requires Valid() && t < Count()
      ensures newList == if walkableOnly then Unoccupied(neighbourList[t], objects) else neighbourList[t]
      ensures forall n :: n in newList ==> n < Count()
    {
      var ns := neighbourList[t];
      newList := [];
      if walkableOnly {
        for i := 0 to |ns|
          invariant newList == Unoccupied(ns[..i], objects)
        {
          assert ns[..i + 1] == ns[..i] + [ns[i]];
          UnoccupiedSnoc(ns[..i], ns[i], objects);
          assert ns[i] in neighbourList[t];
          if objects[ns[i]].None? {
            newList := newList + [ns[i]];
          }
        }
        assert ns[..|ns|] == ns;
        forall n | n in newList ensures n < Count() {
          UnoccupiedMembers(ns, objects, n);
        }
      } else {
        for i := 0 to |ns|
          invariant newList == ns[..i]
        {
          newList := newList + [ns[i]];
        }
        assert ns[..|ns|] == ns;
      }
    }

    /**
     * The effect of processing the neighbours in seen from tile t toward target,
     * relative to the scores and parents g0, h0, f0, p0 held before: an Unassigned
     * neighbour gets t as parent, t's scoreG and a fresh heuristic; an Open one is
     * re-parented only when its scoreG exceeds t's; every other tile keeps its values.
     * With walkableOnly, only free neighbours and the target are processed.
     */
    ghost predicate ProcessedFrom(t: TileId, target: TileId, walkableOnly: bool, seen: seq<TileId>,
                                  g0: seq<real>, h0: seq<real>, f0: seq<real>, p0: seq<Option<TileId>>)
      reads this
    {
      && Valid()
      && ProcessedValues(t, target, walkableOnly, seen, objects, listState, scoreG, scoreH, scoreF, parent, g0, h0, f0, p0)
    }

    /** ProcessedFrom stated on explicit values of the per-tile fields. */
    ghost predicate ProcessedValues(t: TileId, target: TileId, walkableOnly: bool, seen: seq<TileId>,
                                    objs: seq<Option<O>>, states: seq<ListState>,
                                    g: seq<real>, h: seq<real>, f: seq<real>, p: seq<Option<TileId>>,
                                    g0: seq<real>, h0: seq<real>, f0: seq<real>, p0: seq<Option<TileId>>)
    {
      && t < Count() && target < Count()
      && |objs| == Count() && |states| == Count()
      && |g| == Count() && |h| == Count() && |f| == Count() && |p| == Count()
      && |g0| == Count() && |h0| == Count() && |f0| == Count() && |p0| == Count()
      && forall k :: 0 <= k < Count() ==>
           if k in seen && CanEnter(objs, k, Some(target), walkableOnly) && states[k] == Unassigned then
             p[k] == Some(t) && g[k] == g0[t] && h[k] == Heuristic(k, target) && f[k] == g0[t] + Heuristic(k, target)
           else if k in seen && CanEnter(objs, k, Some(target), walkableOnly) && states[k] == Open && g0[k] > g0[t] then
             p[k] == Some(t) && g[k] == g0[t] && h[k] == h0[k] && f[k] == g0[t] + h0[k]
           else
             p[k] == p0[k] && g[k] == g0[k] && h[k] == h0[k] && f[k] == f0[k]
    }

    /** Processing one more neighbour n extends ProcessedValues from seen to seen + [n]. */
    lemma ProcessStep(t: TileId, target: TileId, walkableOnly: bool, seen: seq<TileId>, n: TileId,
                      objs: seq<Option<O>>, states: seq<ListState>,
                      g: seq<real>, h: seq<real>, f: seq<real>, p: seq<Option<TileId>>,
                      g': seq<real>, h': seq<real>, f': seq<real>, p': seq<Option<TileId>>,
                      g0: seq<real>, h0: seq<real>, f0: seq<real>, p0: seq<Option<TileId>>)
      requires ProcessedValues(t, target, walkableOnly, seen, objs, states, g, h, f, p, g0, h0, f0, p0)
      requires n < Count() && g[t] == g0[t]
      requires
        var applies := CanEnter(objs, n, Some(target), walkableOnly);
        if applies && states[n] == Unassigned then
          p' == p[n := Some(t)] && g' == g[n := g[t]] && h' == h[n := Heuristic(n, target)]
          && f' == f[n := g[t] + Heuristic(n, target)]
        else if applies && states[n] == Open && g[n] > g[t] then
          p' == p[n := Some(t)] && g' == g[n := g[t]] && h' == h && f' == f[n := g[t] + h[n]]
        else
          p' == p && g' == g && h' == h && f' == f
      ensures ProcessedValues(t, target, walkableOnly, seen + [n], objs, states, g', h', f', p', g0, h0, f0, p0)
    {
      forall k | 0 <= k < Count()
        ensures
           if k in seen + [n] && CanEnter(objs, k, Some(target), walkableOnly) && states[k] == Unassigned then
             p'[k] == Some(t) && g'[k] == g0[t] && h'[k] == Heuristic(k, target) && f'[k] == g0[t] + Heuristic(k, target)
           else if k in seen + [n] && CanEnter(objs, k, Some(target), walkableOnly) && states[k] == Open && g0[k] > g0[t] then
             p'[k] == Some(t) && g'[k] == g0[t] && h'[k] == h0[k] && f'[k] == g0[t] + h0[k]
           else
             p'[k] == p0[k] && g'[k] == g0[k] && h'[k] == h0[k] && f'[k] == f0[k]
      {
        assert k in seen + [n] <==> k in seen || k == n;
      }
    }

    /** TileAStar.updateScoreF: scoreF := scoreG + scoreH on one tile. */
    method UpdateScoreF(k: TileId)
      requires Valid() && k < Count()
      modifies this
      ensures Valid()
      ensures scoreF == old(scoreF)[k := scoreG[k] + scoreH[k]]
      ensures objects == old(objects) && neighbourList == old(neighbourList) && parent == old(parent)
      ensures scoreG == old(scoreG) && scoreH == old(scoreH) && listState == old(listState)
      ensures distance == old(distance) && aiWeight == old(aiWeight)
    {
      scoreF := scoreF[k := scoreG[k] + scoreH[k]];
    }

    /** TileAStar.processWalkableNeighbour: process the free neighbours of t and the target. */
    method ProcessWalkableNeighbour(t: TileId, target: TileId)
      requires Valid() && t < Count() && target < Count()
      modifies this
      ensures Valid()
      ensures objects == old(objects) && neighbourList == old(neighbourList) && listState == old(listState)
      ensures distance == old(distance) && aiWeight == old(aiWeight)
      ensures ProcessedFrom(t, target, true, neighbourList[t], old(scoreG), old(scoreH), old(scoreF), old(parent))
    {
      ProcessNeighbours(t, target, true);
    }

    /** TileAStar.processAllNeighbour: the same processing without the occupancy filter. */
    method ProcessAllNeighbour(t: TileId, target: TileId)
      requires Valid() && t < Count() && target < Count()
      modifies this
      ensures Valid()
      ensures objects == old(objects) && neighbourList == old(neighbourList) && listState == old(listState)
      ensures distance == old(distance) && aiWeight == old(aiWeight)
      ensures ProcessedFrom(t, target, false, neighbourList[t], old(scoreG), old(scoreH), old(scoreF), old(parent))
    {
      ProcessNeighbours(t, target, false);
    }

    /** The loop shared by the two process methods; walkableOnly selects the occupancy filter. */
    method ProcessNeighbours(t: TileId, target: TileId, walkableOnly: bool)
      requires Valid() && t < Count() && target < Count()
      modifies this
      ensures Valid()
      ensures objects == old(objects) && neighbourList == old(neighbourList) && listState == old(listState)
      ensures distance == old(distance) && aiWeight == old(aiWeight)
      ensures ProcessedFrom(t, target, walkableOnly, neighbourList[t], old(scoreG), old(scoreH), old(scoreF), old(parent))
    {
      var ns := neighbourList[t];
      for i := 0 to |ns|
        invariant Valid()
        invariant objects == old(objects) && neighbourList == old(neighbourList) && listState == old(listState)
        invariant distance == old(distance) && aiWeight == old(aiWeight)
        invariant scoreG[t] == old(scoreG[t])
        invariant ProcessedFrom(t, target, walkableOnly, ns[..i], old(scoreG), old(scoreH), old(scoreF), old(parent))
      {
        var n := ns[i];
        assert ns[..i + 1] == ns[..i] + [n];
        assert n in neighbourList[t];
        ghost var g, h, f, p := scoreG, scoreH, scoreF, parent;
        if !walkableOnly || objects[n].None? || n == target {
          if listState[n] == Unassigned {
            scoreG := scoreG[n := scoreG[t]];
            scoreH := scoreH[n := Heuristic(n, target)];
            UpdateScoreF(n);
            parent := parent[n := Some(t)];
          } else if listState[n] == Open {
            var tempScoreG := scoreG[t];
            if scoreG[n] > tempScoreG {
              parent := parent[n := Some(t)];
              scoreG := scoreG[n := tempScoreG];
              UpdateScoreF(n);
            }
          }
        }
        ProcessStep(t, target, walkableOnly, ns[..i], n, objects, listState, g, h, f, p,
                    scoreG, scoreH, scoreF, parent, old(scoreG), old(scoreH), old(scoreF), old(parent));
      }
      assert ns[..|ns|] == ns;
    }

    /** With every scoreG at 0, processing re-parents exactly the Unassigned neighbours it may enter and keeps every scoreG at 0. */
    lemma ProcessKeepsZeroG(t: TileId, target: TileId, walkableOnly: bool,
                            g0: seq<real>, h0: seq<real>, f0: seq<real>, p0: seq<Option<TileId>>)
      requires Valid() && t < Count()
      requires ProcessedFrom(t, target, walkableOnly, neighbourList[t], g0, h0, f0, p0)
      requires forall k :: 0 <= k < |g0| ==> g0[k] == 0.0
      ensures GZero()
      ensures forall k :: 0 <= k < Count() ==>
                parent[k] == if k in neighbourList[t] && CanEnter(objects, k, Some(target), walkableOnly) && listState[k] == Unassigned
                             then Some(t) else p0[k]
    {
    }
  }
}
