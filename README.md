# Tactics board game rules engine, modelled in Dafny

This project models the rules engine of a turn-based tactics board game. The
board is a rectangular grid of tiles. Units of two factions (the player's and
the AI's) stand on tiles, move along paths and attack each other.

The model covers these parts of the engine:

- **Grid and tiles** (`grid.dfy`, `tiles.dfy`). The column-major layout of the
  grid. The per-tile state: occupant, neighbour list, the search scratch
  fields (parent, scoreG/H/F, list state), the range-query distance and the
  AI weight. The neighbour-processing steps of the search.
- **Search** (`grid_astar.dfy`). `GridAStar.getDistance`, `searchWalkableTile`,
  `resetGraph` and `invertTileArray`. A child copies its parent's scoreG
  instead of adding one. So every scoreG stays 0 and both searches are greedy
  best-first searches on the squared-distance heuristic. The model keeps this,
  and proves what such a search guarantees:
  - the distance is -1 exactly when no walk reaches the target;
  - a returned path is a walk from the origin;
  - the path ends on the destination whenever the destination is reachable;
  - the scratch state is clean again afterwards.
- **Grid manager** (`grid_manager.dfy`). The neighbour wiring through
  `getTileByIndex`, including its row-edge wrap-around. `setInTile`. The
  layered range query `getTilesWithinDistance` and its two painting wrappers.
  The query's result is pinned down to its order: ring by ring, each ring
  built open tile by open tile in neighbour-list order, each tile once.
- **Combat** (`attacks.dfy`). The sparse damage-bonus table and the
  attack-instance formula, in exact real arithmetic.
- **Turns** (`turns.dfy`). The turn manager. `endTurn` never advances the
  faction index, because its increment is commented out. The "an action is in
  flight" gate.
- **Units and factions** (`units.dfy`). A unit's move, with the follow-path
  tween's completion as an explicit step. The four-state attack chain,
  including the timed hit of `StateAttackEnemy`. `kill`. The faction rosters
  and their static registry.
- **Messages** (`messages.dfy`). The move, attack and rest messages, and a
  message manager that records what is sent.
- **AI** (`ai_scoring.dfy`, `ai_controller.dfy`):
  - the AI action's tile scoring and its maximum;
  - the tile weighting by player threats;
  - the choice among the heaviest actions of a unit;
  - the order of a turn's actions;
  - `performAction`/`startNextAction`/`onMoveEnd`/`onTurnChanged`. These send
    exactly one message per step.
- **Player input** (`player_controller.dfy`). The four click behaviours
  (none, selecting a unit, moving, attacking), the action buttons and the
  callbacks they drive.

How the source's features are represented:

- Tiles are identified by their flat index in the grid's tile list.
- `null` is `None`.
- `Math.random()` is a `RandomSource`, a stream of values in [0, 1).
- Listener broadcasts are appended to an event log.
- Messages are recorded in order in `MessageManager.sent`. What executing a
  message does is not part of this model.

## Model

| member | source | states |
|---|---|---|
| Grids.Placement | src/grid/grid.ts:33-34 | the tile built for column i, row j carries indices (i, j) |
| Grids.SquaredDistance | src/grid/tile.ts:99 | the squared distance between two tile positions is never negative and is 0 between equal positions |
| Grids.Grid.constructor | src/grid/grid.ts:18-40 | the grid keeps width, length, tileSize and tileSpacing as given and is laid out: width × length tiles, the one at flat index k at column k / length, row k % length |
| Grids.Grid.TileAtCell | src/grid/grid.ts:31-36 | the tile at index i·length + j is the one built for column i, row j (indexX = i, indexZ = j) |
| Grids.Grid.DistinctPositions | src/grid/grid.ts:31-36 | with a positive tileSize + tileSpacing, two tiles at different flat indices differ in x or in z, since each sits at its column and row times that pitch |
| Grids.LayoutCell | src/grid/grid.ts:31-38 | in a laid-out list of width × length tiles, cell (i, j) sits at index i·length + j |
| Grids.FlatIndexInRange | src/grid/gridManager.ts:72-75 | a cell inside the board has a flat index below width × length |
| Grids.FlatIndexUnique | src/grid/gridManager.ts:72 | the flat index i·length + j determines the cell (i, j) when j < length |
| Tiles.UnoccupiedSnoc | src/grid/tile.ts:82-86 | the walkable filter of a list extended by one tile grows by that tile exactly when it is free |
| Tiles.UnoccupiedMembers | src/grid/tile.ts:82-86 | a tile is in the walkable filter exactly when it is a neighbour and has no occupant |
| Tiles.UnoccupiedLength | src/grid/tile.ts:82-86 | the walkable filter is never longer than the neighbour list |
| Tiles.TileGraph.Heuristic | src/grid/tile.ts:99 | scoreH is never negative and is 0 on the target |
| Tiles.TileGraph.constructor | src/grid/tile.ts:65-78 | fresh tiles: no occupant, no neighbours, every list state Unassigned with no parent, every scoreG 0, weight 0 |
| Tiles.TileGraph.SetObject | src/grid/tile.ts:11 | assigning Tile.object changes that tile's occupant and nothing else |
| Tiles.TileGraph.SetDistance | src/grid/tile.ts:13 | assigning Tile.distance changes that tile's distance and nothing else |
| Tiles.TileGraph.SetAiWeight | src/grid/tile.ts:14 | assigning Tile.aiWeight changes that tile's weight and nothing else |
| Tiles.TileGraph.GetNeighbourList | src/grid/tile.ts:80-91 | with walkableOnly, the free neighbours in their original order; without it, all neighbours in order; every entry is a tile |
| Tiles.TileGraph.ProcessStep | src/grid/tile.ts:94-112 | processing one more neighbour extends the per-neighbour rule (Unassigned: adopt; Open: re-parent only on strictly larger scoreG; Closed: untouched) by that neighbour |
| Tiles.TileGraph.UpdateScoreF | src/grid/tile.ts:135 | scoreF of the tile becomes scoreG + scoreH; nothing else changes |
| Tiles.TileGraph.ProcessWalkableNeighbour | src/grid/tile.ts:93-113 | only free neighbours and the target are touched; an Unassigned one gets this tile as parent, this scoreG and scoreF = scoreG + scoreH; an Open one is re-parented only when its scoreG is strictly larger; Closed ones and every other tile keep their values |
| Tiles.TileGraph.ProcessAllNeighbour | src/grid/tile.ts:115-133 | the same rule as processWalkableNeighbour without the occupancy filter |
| Tiles.TileGraph.ProcessNeighbours | src/grid/tile.ts:94-112 | the processing loop shared by both: its effect is exactly the per-neighbour rule over the whole neighbour list |
| Tiles.TileGraph.ProcessKeepsZeroG | src/grid/tile.ts:98 | with every scoreG at 0, processing keeps every scoreG at 0 and re-parents exactly the Unassigned neighbours it may enter |
| AStar.WalkStaysInside | src/grid/gridManager.ts:210-218 | a walk that starts in a set of tiles closed under steps never leaves it |
| AStar.Chain | src/grid/gridManager.ts:242-249 | the parent chain of k ends at k, starts at a tile without parent, and links each tile to its parent |
| AStar.ChainSimple | src/grid/gridManager.ts:242-249 | every tile of a parent chain before its end has a smaller depth than the end, so the chain never repeats a tile |
| AStar.FrontierInit | src/grid/gridManager.ts:188-198 | a search starts with the source current, both lists empty, in a clean graph |
| AStar.Expand | src/grid/gridManager.ts:200-218 | closing the current tile, processing and opening its neighbours keeps the search invariant and closes one more tile |
| AStar.ExpandLists | src/grid/gridManager.ts:200-218 | after an expansion the open and closed lists still describe the tile states, with the expanded tile closed |
| AStar.ExpandTree | src/grid/gridManager.ts:200-218 | after an expansion every parent link still points to a closed tile of smaller depth, rooted at the source |
| AStar.RemoveAt | src/grid/gridManager.ts:238 | splicing one entry out of the open list removes exactly that entry and keeps the rest |
| AStar.Select | src/grid/gridManager.ts:225-238 | taking any open entry as the next current tile keeps the search invariant |
| AStar.SearchExhausted | src/grid/gridManager.ts:233-236 | when the open list runs empty the target is not reachable by any walk |
| AStar.ExhaustedClosesReach | src/grid/gridManager.ts:305-319 | when the open list runs empty, a tile is closed exactly when a walk from the origin reaches it |
| AStar.ChainFromSource | src/grid/gridManager.ts:242-249 | the parent chain of every touched tile starts at the source and is a walk |
| AStar.OpenListIsOpen | src/grid/gridManager.ts:225-231 | every listed open tile is open and differs from the current one |
| AStar.ResetGraph | src/grid/gridManager.ts:255-268 | hTile and every tile of both lists become Unassigned with no parent; every other tile and field is unchanged |
| AStar.LowestLast | src/grid/gridManager.ts:223-231 | the scan with <= returns the last entry of least scoreF, None only for an empty list |
| AStar.LowestFirst | src/grid/gridManager.ts:302-310 | the scan with < returns the first entry of least scoreF, None only for an empty list |
| AStar.OpenForDistance | src/grid/gridManager.ts:210-218 | getDistance opens exactly the enterable Unassigned neighbours (free ones or the target in walkable mode) and appends them |
| AStar.ParentChainLength | src/grid/gridManager.ts:242-249 | the counter is the number of parent links from the tile back to a tile without a parent |
| AStar.ResetClean | src/grid/gridManager.ts:251 | resetting the target and both lists leaves every tile the search touched Unassigned with no parent |
| AStar.Expansion | src/grid/gridManager.ts:200-218 | one expansion of either search keeps the invariant, keeps scoreG at 0 and strictly shrinks the set of unclosed tiles |
| AStar.OpenForSearch | src/grid/gridManager.ts:292-297 | searchWalkableTile opens the returned neighbours that are Unassigned or the destination (the destination possibly twice) |
| AStar.WalkOfLength | src/grid/gridManager.ts:242-252 | a walk from src to target witnesses reachability with a walk of its length |
| AStar.ResetAfterSearch | src/grid/gridManager.ts:251 | after a search the graph is clean: every tile Unassigned with no parent |
| AStar.GetDistance | src/grid/gridManager.ts:187-253 | 0 when src is the target; -1 exactly when no walk reaches the target; otherwise a walk without repeated tiles of that length leads from src to the target; exactly 1 for a neighbour of src; the scratch state is clean afterwards and the board unchanged |
| AStar.AdjacentReachable | src/grid/gridManager.ts:210-218 | a neighbour of src other than src is reachable in one step (the target may be entered even when occupied) |
| AStar.DistanceLoop | src/grid/gridManager.ts:197-239 | the main loop of getDistance stops on the target, or with nothing left open; when src is the target it stops at once, on a tile without parent; a neighbour target is reached with src as its parent |
| AStar.DistancesTo | src/grid/gridManager.ts:323 | one squared distance per closed tile, in list order |
| AStar.FallbackPickUnique | src/grid/gridManager.ts:322-329 | the fallback choice is determined by the distances and the threshold |
| AStar.NearestClosed | src/grid/gridManager.ts:319-330 | the fallback scan picks the first record within the threshold, or else the first nearest closed tile; None only for an empty list |
| AStar.BackReversesChain | src/grid/gridManager.ts:332-337 | walking back from a tile lists its parent chain in reverse, without the origin |
| AStar.PathBack | src/grid/gridManager.ts:332-337 | the walk-back loop collects exactly that reversed chain |
| AStar.BackStep | src/grid/gridManager.ts:333-337 | one step of the walk back appends the tile and continues from its parent, whose depth is smaller |
| AStar.InvertTileArray | src/grid/gridManager.ts:346-352 | the output has the input's length and holds its elements in reverse order |
| AStar.TravelOrder | src/grid/gridManager.ts:339 | reversing the walk-back gives the chain after the origin, in travel order |
| AStar.SearchLoop | src/grid/gridManager.ts:280-317 | the main loop ends with the destination current or with an empty open list, keeping the search invariant |
| AStar.TravelPath | src/grid/gridManager.ts:332-339 | the origin followed by the path is the end tile's parent chain |
| AStar.SearchOutcome | src/grid/gridManager.ts:280-317 | the loop ends on the destination exactly when it is reachable; otherwise the origin is closed |
| AStar.EndChain | src/grid/gridManager.ts:319-337 | the chain of the end tile starts at the origin and is a walk |
| AStar.SearchEnd | src/grid/gridManager.ts:280-330 | the loop and the fallback end on a tile whose parent chain starts at the origin and is a walk; on the destination when it is reachable, else on the fallback pick among the closed tiles, which are exactly the tiles reachable from the origin, each once |
| AStar.SearchWalkableTile | src/grid/gridManager.ts:270-344 | the origin plus the path is a walk; reachable destination: the path ends there; otherwise the closed list holds each tile reachable from the origin exactly once and the path ends on the fallback pick among them; the scratch state is clean afterwards |
| GridManagement.WiringBounded | src/grid/gridManager.ts:25-36 | a neighbour list has at most four entries, all of them tiles |
| GridManagement.WiringSymmetric | src/grid/gridManager.ts:27-34 | b is a neighbour of a exactly when a is a neighbour of b |
| GridManagement.RowEdgeWraps | src/grid/gridManager.ts:27-30 | the last tile of a column is wired to the first tile of the next column, which is not adjacent on the board |
| GridManagement.FirstRing | src/grid/gridManager.ts:126-142 | every neighbour src reads (its free ones in walkable mode) gets distance 1; when 1 <= dist the first ring holds exactly those, each once, in the order src lists them (AppendNew over Stepped), and is empty otherwise |
| GridManagement.OpenRing | src/grid/gridManager.ts:148-160 | the next ring gains, when level + 1 <= dist, exactly the tiles one open tile steps to that are neither closed, in the open ring nor kept already, appended once each in its neighbour order at distance level + 1; otherwise nothing |
| GridManagement.NextRing | src/grid/gridManager.ts:144-161 | the next ring holds exactly the tiles (free in walkable mode) some tile of the open ring steps to that are neither in it nor closed, when level + 1 <= dist, each at distance level + 1, in the order RingOrder gives: open tile by open tile, each in its neighbour order, each once |
| GridManagement.CloseRing | src/grid/gridManager.ts:163-170 | getDistance is asked about exactly the open tiles other than src not closed before, and each answer is one getDistance gives; the close list gains exactly those answered in [0, dist], appended in open-ring order (CloseOrder); it stays distinct, without src, free in walkable mode, each within dist steps |
| GridManagement.AnsweredPrefix | src/grid/gridManager.ts:144-171 | the getDistance answers of the first j iterations are answers for those iterations |
| GridManagement.ClosedGrows | src/grid/gridManager.ts:163-170 | a tile closed after j iterations stays closed |
| GridManagement.ClosedFromRing | src/grid/gridManager.ts:163-170 | a closed tile was in the ring of an earlier iteration |
| GridManagement.WalkWithExempt | src/grid/gridManager.ts:166 | a walk that enters only allowed tiles is also a walk when its last tile may be occupied |
| GridManagement.WalkInRing | src/grid/gridManager.ts:126-161 | the last tile of a walk of at most dist steps from src, src excluded, is in the ring of an earlier iteration |
| GridManagement.RangeSound | src/grid/gridManager.ts:125-174 | a tile of the result is not src, is free in walkable mode, and lies within dist steps of src |
| GridManagement.ClosedAnswer | src/grid/gridManager.ts:163-170 | a closed tile is not src and lies within dist steps of src |
| GridManagement.RangeCovers | src/grid/gridManager.ts:125-174 | the end of a walk of at most dist steps from src, other than src, is in the result unless getDistance answered more than dist for it at some iteration |
| GridManagement.RangeCoversNeighbours | src/grid/gridManager.ts:125-174 | for dist >= 1 every neighbour of src it may enter (free in walkable mode) is in the result |
| GridManagement.AskedAnswer | src/grid/gridManager.ts:165-166 | every tile asked about in an iteration got a getDistance answer, a distance some walk realises or -1 when none exists |
| GridManagement.ClosedOnAnswer | src/grid/gridManager.ts:167-168 | a tile asked about whose answer lies in [0, dist] is closed |
| GridManagement.NextLevel | src/grid/gridManager.ts:144-171 | one iteration turns the open, next and closed lists of the level before into those of the next level |
| GridManagement.RangeResultSnoc | src/grid/gridManager.ts:167-168 | pushing a new tile other than src, free in walkable mode and within dist steps, keeps the result distinct and within range |
| GridManagement.RangeDistinct | src/grid/gridManager.ts:125-174 | a result of the range query holds each tile once |
| GridManagement.NoTileTwice | src/grid/gridManager.ts:125-174 | on two tiles wired to each other, [1, 1] is not a result of the range query from tile 0 |
| GridManagement.FirstRingOfTwo | src/grid/gridManager.ts:132-142 | when tile 0 lists its neighbours as 1 then 2, its first ring is [1, 2] |
| GridManagement.CloseOrderOfTwo | src/grid/gridManager.ts:163-170 | closing the ring [1, 2] never puts tile 2 ahead of tile 1, whatever getDistance answers |
| GridManagement.NeighbourOrderKept | src/grid/gridManager.ts:125-174 | when src lists its neighbours as 1 then 2, [2, 1] is not a result of the range query within one step |
| GridManagement.AppendNew | src/grid/gridManager.ts:132-142 | the list a neighbour loop builds never holds a tile twice when the list it started from did not |
| GridManagement.AppendNewMembers | src/grid/gridManager.ts:132-142 | the neighbour loop keeps the list it started from and adds exactly the neighbours that are neither closed nor in the open ring |
| GridManagement.AppendedMembers | src/grid/gridManager.ts:150-160 | at the end of a neighbour loop the list holds exactly the start list and, when pushing, the neighbours neither closed nor in the open ring |
| GridManagement.AppendedStep | src/grid/gridManager.ts:133-141 | one more neighbour is appended exactly when pushing and it is in no list yet |
| GridManagement.RingOrder | src/grid/gridManager.ts:148-161 | the next ring, built open tile by open tile, never holds a tile twice |
| GridManagement.RingedStep | src/grid/gridManager.ts:148-161 | the neighbours of one more open tile, appended, extend the ring built so far in RingOrder |
| GridManagement.GatheredStep | src/grid/gridManager.ts:148-161 | adding the new tiles one more open tile steps to keeps the next ring equal to the new tiles the open tiles so far step to |
| GridManagement.CloseOrder | src/grid/gridManager.ts:163-170 | the close list extended over one open ring never holds a tile twice when it did not before |
| GridManagement.CloseOrderFrame | src/grid/gridManager.ts:163-170 | the close order over a ring depends only on the answers for tiles of that ring |
| GridManagement.ClosingStep | src/grid/gridManager.ts:163-170 | checking one more open tile asks getDistance about it exactly when it is not src and not closed, and closes it exactly when the answer lies in [0, dist], in ring order |
| GridManagement.ClosedStep | src/grid/gridManager.ts:163-170 | the same step for the lists alone: the answered tiles, the closed tiles and their order |
| GridManagement.AllAnswersSnoc | src/grid/gridManager.ts:166 | one more getDistance answer keeps every recorded answer a real one |
| GridManagement.LevelOrder | src/grid/gridManager.ts:125-174 | the open ring and the close list of the query, in its order, never hold a tile twice |
| GridManagement.LeveledStart | src/grid/gridManager.ts:126-142 | the first ring, with nothing closed, is the query's state before its first iteration, and holds no tile twice |
| GridManagement.LeveledStep | src/grid/gridManager.ts:144-171 | the next ring in RingOrder and the close list extended in CloseOrder are the query's state after one more iteration |
| GridManagement.FirstNeighbour | src/grid/gridManager.ts:133-141 | a neighbour not kept yet gets distance 1 and is appended when 1 <= dist; a kept one changes nothing; the board is unchanged |
| GridManagement.OpenNeighbour | src/grid/gridManager.ts:151-159 | a neighbour in no list yet is appended, at the open tile's distance plus one, when that lies within dist; otherwise nothing changes; the board is unchanged |
| GridManagement.OpenNeighbours | src/grid/gridManager.ts:150-160 | the neighbour loop of one open tile appends, in neighbour order, each neighbour in no list yet when level + 1 <= dist |
| GridManagement.GatherRing | src/grid/gridManager.ts:148-161 | the ring loop builds the next ring in RingOrder, holding exactly the new tiles the open tiles step to |
| GridManagement.CloseTile | src/grid/gridManager.ts:164-169 | getDistance's answer for one open tile is a real one, and the tile is appended to the close list exactly when it lies in [0, dist] |
| GridManagement.RangeIteration | src/grid/gridManager.ts:144-171 | one iteration of the outer loop turns the query's lists after i iterations, in LevelOrder, into those after i + 1, keeping the result a distinct range result |
| GridManagement.EnemiesMembers | src/grid/gridManager.ts:97-102 | a tile is kept exactly when it is in range and holds a unit of another faction |
| GridManagement.GridManager.constructor | src/grid/gridManager.ts:13-38 | every tile gets fresh search state and the neighbour list the four probes build; no tile is painted |
| GridManagement.GridManager.NeighbourProbes | src/grid/gridManager.ts:25-36 | probing (x, z+1), (x, z-1), (x+1, z), (x-1, z) and keeping what exists gives the tiles at k+1, k-1, k+length, k-length, in that order, when in bounds |
| GridManagement.GridManager.ProbesAreWiring | src/grid/gridManager.ts:27-34 | the four probes of the tile at flat index k land on k+1, k-1, k+length and k-length |
| GridManagement.GridManager.GetTileByIndex | src/grid/gridManager.ts:70-79 | the tile at column·length + row when that index is in [0, count), None otherwise; there is no per-coordinate check |
| GridManagement.GridManager.GetTileByIndexInside | src/grid/gridManager.ts:70-79 | inside the board it finds the tile built for that column and row |
| GridManagement.GridManager.SetInTile | src/grid/gridManager.ts:64-68 | the tile holds the object, the object records the tile, and nothing else changes |
| GridManagement.GridManager.GetTilesWithinDistance | src/grid/gridManager.ts:125-174 | the result is what the layered query closes for the getDistance answers it got, in the order it closes them (LevelOrder: iteration by iteration, each in the order of the open ring, rings built open tile by open tile in neighbour order), each tile once: never src, free in walkable mode, each within dist steps; with RangeCovers and RangeCoversNeighbours, every enterable neighbour of src when dist >= 1 and every tile a walk of at most dist steps reaches unless getDistance overshot; empty when dist <= 0; the board is unchanged |
| GridManagement.GridManager.GetAndPaintTilesForMove | src/grid/gridManager.ts:81-91 | the walkable range, as the range query gives it (in its closing order, each tile once, free, within dist steps, holding every free neighbour when dist >= 1), which also becomes the painted set |
| GridManagement.GridManager.GetAndPaintTilesForAttack | src/grid/gridManager.ts:93-111 | exactly the tiles in range, in order, that hold a unit of another faction than the source occupant; the whole range is painted |
| Attacks.AddedReadsBack | src/game/attackManager.ts:8-16 | after addBonus(f, a, m), the bonus of (f, a) is m |
| Attacks.AddedKeepsOthers | src/game/attackManager.ts:12-15 | addBonus for one pair leaves the bonus of every other pair unchanged |
| Attacks.AddedOverwrites | src/game/attackManager.ts:15 | a later addBonus for the same pair overwrites the earlier one |
| Attacks.AttackManager.constructor | src/game/attackManager.ts:4 | the bonus table starts absent |
| Attacks.AttackManager.AddBonus | src/game/attackManager.ts:8-16 | the table exists afterwards and is the old one (or empty) with the pair set |
| Attacks.AttackManager.GetBonus | src/game/attackManager.ts:18-23 | the registered multiplier, 0 for an unregistered pair; requires the table to exist |
| Attacks.AttackManager.GetAttackInstance | src/game/attackManager.ts:25-33 | bonusDamage is the pair's bonus; totalDamage = damage × (1 + bonus); the target is dead iff its HP minus totalDamage is at most 0; attacker and target are the arguments |
| Attacks.AttackManager.NoBonusBaseDamage | src/game/attackManager.ts:27-28 | without a registered bonus the attack deals exactly the base damage |
| Attacks.AttackManager.BonusRaisesDamage | src/game/attackManager.ts:28-29 | a positive bonus raises positive damage, and a target that dies at some HP also dies at any lower HP |
| Turns.TurnNeverAdvances | src/game/turnManager.ts:13-17 | from any index in [0, count], any number of endTurn calls leaves the index where it was |
| Turns.PastEndResets | src/game/turnManager.ts:15-17 | an index beyond the faction count is reset to 0 by one endTurn and stays there |
| Turns.TurnManager.constructor | src/game/turnManager.ts:4-7 | no factions, index 0, no listeners, no action in flight |
| Turns.TurnManager.CurrentFaction | src/game/turnManager.ts:19 | the faction at the current index, None when the index is past the list |
| Turns.TurnManager.AddFaction | src/game/turnManager.ts:9-11 | appends the faction and changes nothing else |
| Turns.TurnManager.EndTurn | src/game/turnManager.ts:13-21 | the index is kept (reset to 0 only past the count); every listener, in registration order, is told the faction at that index |
| Turns.TurnManager.AddListener | src/game/turnManager.ts:23-25 | appends the listener and changes nothing else |
| Turns.TurnManager.StartAction | src/game/turnManager.ts:27-29 | the gate is raised, a second call included, and nothing else changes |
| Turns.TurnManager.EndAction | src/game/turnManager.ts:31-34 | the gate is lowered, then the turn ends as endTurn says |
| Units.IndexOf | src/unit/faction.ts:44 | -1 exactly when the element is absent; otherwise the position of its first occurrence |
| Units.RemovePresent | src/unit/faction.ts:43-45 | removing a present unit drops exactly its first occurrence and keeps the rest in order |
| Units.RemoveAbsent | src/unit/faction.ts:44 | removing an absent unit drops the last unit of the roster |
| Units.HitFiresOnce | src/unit/unit.ts:295-301 | over any run of updates the hit fires exactly once if the accumulated time reaches 0.5 (and it has not fired yet), never otherwise |
| Units.EventLog.constructor | src/unit/unit.ts:11-14 | no broadcast yet |
| Units.AttackState.constructor | src/unit/unit.ts:226-237 | a state of the given kind with no successor, no instance and a reset clock |
| Units.AttackState.SetAttackInstance | src/unit/unit.ts:233-237 | the state holds the instance, and through it the attacker and target, and nothing else changes |
| Units.AttackState.OnStart | src/unit/unit.ts:252-321 | StartAttack raises the turn gate; Rotate starts running; AttackEnemy resets its time and flags; EndAttack ends the action |
| Units.AttackState.CompleteRotation | src/unit/unit.ts:265 | the rotation tween's completion stops Rotate and changes nothing else |
| Units.AttackState.OnUpdate | src/unit/unit.ts:295-315 | StartAttack and EndAttack stop; Rotate runs while its flag is set; AttackEnemy adds dt, hits the target once on reaching 0.5, and runs while time < 1 (without a projectile), or starts the projectile once at its delay and runs until time >= 1 and the projectile has finished |
| Units.Unit.constructor | src/unit/unit.ts:27-54 | the four attack states are chained Start, Rotate, AttackEnemy, End; End has no successor; the unit is on no tile and in no faction |
| Units.Unit.Move | src/unit/unit.ts:109-123 | onMoveStart is broadcast with the last path tile; the gate is raised; the unit's tile is emptied while the unit's own tile field is kept |
| Units.Unit.CompleteMove | src/unit/unit.ts:124-129 | the last path tile holds the unit, the unit records it, and the action ends |
| Units.Unit.Attack | src/unit/unit.ts:135-144 | onAttackStart is broadcast; every state gets the same instance and the chain starts at StartAttack |
| Units.Unit.Hit | src/unit/unit.ts:146-150 | onHit is broadcast |
| Units.Unit.Kill | src/unit/unit.ts:152-161 | onDead is broadcast and the unit is spliced out of its faction's roster; neither its tile nor the tile's occupant is cleared |
| Units.Faction.constructor | src/unit/faction.ts:25-28 | the faction has the name and an empty roster, and is appended to the registry |
| Units.Faction.AddUnit | src/unit/faction.ts:30-33 | the unit is appended and gets uid = the previous roster length and this faction |
| Units.Faction.GetUnit | src/unit/faction.ts:35-37 | the roster element at position uid, None where the source reads undefined |
| Units.Faction.RemoveUnit | src/unit/faction.ts:43-45 | the roster after splicing at indexOf(unit), which is -1 for an absent unit |
| Units.UidGoesStale | src/unit/faction.ts:35-45 | after a removal, getUnit(uid) of a unit added later need not return that unit |
| Units.AllUnitsMembers | src/unit/faction.ts:17-23 | a unit is in the concatenation exactly when it is in some faction's roster |
| Units.FactionRegistry.constructor | src/unit/faction.ts:9 | the registry starts empty |
| Units.FactionRegistry.GetFaction | src/unit/faction.ts:10-15 | always None, whatever the name |
| Units.FactionRegistry.GetAllUnits | src/unit/faction.ts:17-23 | every roster concatenated in registration order |
| Messages.MessageManager.constructor | src/messages/messageManager.ts:4-10 | nothing sent yet |
| Messages.MessageManager.Send | src/messages/messageManager.ts:5-7 | the message is sent after every earlier one, which are kept |
| AIScoring.TileCandidate | src/game/aiController.ts:160-171 | an enemy is scored exactly when one stands on the tile; its score lies in [base+2, base+9], at least base+7 for a kill and at most base+7 otherwise; a tile without an enemy scores base |
| AIScoring.Candidates | src/game/aiController.ts:159 | one candidate per tile in range, in order |
| AIScoring.HeaviestIsFirstMax | src/game/aiController.ts:157-185 | the weight is minus infinity exactly when the range is empty; otherwise weight and target are those of a candidate of maximal score, the first one |
| AIScoring.HeaviestSnoc | src/game/aiController.ts:160-181 | scanning one more tile is one more Step of the running maximum |
| AIScoring.FirstMaxIsHeaviest | src/game/aiController.ts:157-182 | the running maximum holds the score and enemy of the first candidate of maximal score |
| AIScoring.InsertByWeightSorted | src/game/aiController.ts:122 | inserting by weight keeps a heaviest-first list sorted and adds exactly the new action |
| AIScoring.InsertByWeightMembers | src/game/aiController.ts:122 | the inserted list holds exactly the old actions and the new one |
| AIScoring.InsertByWeightPermutes | src/game/aiController.ts:122 | the inserted list is a permutation of the old list plus the new action |
| AIScoring.SortByWeightSorted | src/game/aiController.ts:122 | the sort is heaviest first and a permutation of its input |
| AIScoring.Filter | src/game/aiController.ts:136-141 | every action kept finishes the turn or not, as asked |
| AIScoring.FilterSplits | src/game/aiController.ts:136-141 | the two filters split the actions between them |
| AIScoring.SortActions | src/game/aiController.ts:134-143 | the ordered plan has as many actions as the input |
| AIScoring.SortActionsOrder | src/game/aiController.ts:134-143 | the order is a permutation; no attacking action precedes a moving one; the attacking ones are heaviest first |
| AIScoring.HighestHP | src/game/aiController.ts:71-76 | the first unit of highest HP, None for an empty roster |
| AIScoring.PickBelow | src/game/aiController.ts:131 | for a draw in [0, 1), floor(r·n) lies in [0, n) for n > 0 and is 0 for n = 0 |
| AIScoring.TiedRunEnd | src/game/aiController.ts:126-130 | the tie scan started at i stops at an index in [i - 1, |sorted|) |
| AIScoring.TiedRunEndSpec | src/game/aiController.ts:126-130 | on a heaviest-first list, the scan from 1 stops at the last index of the run of entries as heavy as the first; the next entry, if any, is lighter |
| AIScoring.PickOfHeaviest | src/game/aiController.ts:122-131 | the sorted pick for a draw in [0, 1) is one of the actions, outweighed by none, inside the tied run at the head of the sorted list and never its last entry when the run is longer than one |
| AI.RandomSource.constructor | src/game/aiController.ts:131 | no draw taken yet |
| AI.RandomSource.Next | src/game/aiController.ts:131 | the next draw of the stream, which lies in [0, 1) |
| AI.ScanTile | src/game/aiController.ts:160-181 | one tile of the scan is one Step of the tile's candidate |
| AI.Scan | src/game/aiController.ts:157-182 | the scan's result is the first maximal candidate (Heaviest) |
| AI.NewAIAction | src/game/aiController.ts:152-186 | moveToTile is None iff fromTile is the unit's tile; weight and target are the first maximum over the tiles in attack range; a target stands on the board and is an enemy; the board is unchanged |
| AI.HeaviestIsEnemy | src/game/aiController.ts:157-182 | a chosen target stands on the board and is an enemy of the unit |
| AI.PickHeaviest | src/game/aiController.ts:126-131 | the returned action is the floor(r·lastTied)-th of the sorted list, where lastTied is the index the tie scan stops at (TiedRunEnd from 1) |
| AI.SortAndPick | src/game/aiController.ts:122-131 | the pick is PickOf: one of the actions, outweighed by none, the floor(r·lastTied)-th of the weight-sorted list, whose first lastTied + 1 entries share its weight and whose next entry is lighter; never the last of a tied run longer than one |
| AI.OrderedReady | src/game/aiController.ts:30 | ordering a plan of ready actions gives ready actions |
| AI.AIController.constructor | src/game/aiController.ts:19-22 | the two factions are kept; no action list |
| AI.AIController.ResetWeights | src/game/aiController.ts:85-90 | every tile's weight is 0 and the board is unchanged |
| AI.PickedIntro | src/game/aiController.ts:115-131 | an action that is PickOf(actions, r) for the actions built from a reach of the unit is one weightAIUnitMove may return for draw r |
| AI.PickedFrom | src/game/aiController.ts:115-131 | for the actions built from the unit's reach, PickOf(actions, r) is the heaviest-tie pick among them, a proposal for the unit, and what weightAIUnitMove returns for draw r |
| AI.PickedIsHeaviest | src/game/aiController.ts:115-131 | whatever weightAIUnitMove may return for draw r is, for some reach of the unit and the actions built from it, outweighed by none of them, at position floor(r·lastTied) of the sorted actions, in the tied run at its head and never the last of a run longer than one |
| AI.AllPickedEmpty | src/game/aiController.ts:108 | with no AI unit the empty plan is the plan |
| AI.AllPickedSnoc | src/game/aiController.ts:109-111 | pushing a pick for the next unit extends the plan by one unit |
| AI.RepickedOne | src/game/aiController.ts:51-62 | replacing the current action by an action weightAIUnitMove may return for its unit for some draw, and nothing else, is a re-pick at that index |
| AI.RepickedTrans | src/game/aiController.ts:48-83 | two rounds of recomputation, the second over a wider window, are one round over the joined window |
| AI.ScoredAllSnoc | src/game/aiController.ts:119-121 | building the action of one more reachable tile extends the built list by that tile |
| AI.ScoredIsProposal | src/game/aiController.ts:117-120 | the action built from the unit's tile or a free tile within its move range is a proposal: its move target is that free tile, its attack target an enemy on the board |
| AI.Concat | src/game/aiController.ts:94-96 | a tile is in the joined lists exactly when it is in one of them |
| AI.ConcatSnoc | src/game/aiController.ts:94-96 | joining one more list appends it |
| AI.ThreatsSnoc | src/game/aiController.ts:93-97 | the threats of one more player unit are appended after the earlier ones |
| AI.ThreatsIntro | src/game/aiController.ts:92-105 | the joined hit lists of move ranges and attack ranges the range query gives are the threats of the player's units |
| AI.PlayerReachSnoc | src/game/aiController.ts:93-97 | the walkable range of the next player unit and its attack range from each of those tiles extend what the earlier units reach |
| AI.DistinctOnce | src/game/aiController.ts:101-104 | a list without repeats holds a tile once or not at all |
| AI.ConcatCount | src/game/aiController.ts:94-96 | joined lists without repeats hold a tile once per list that holds it |
| AI.ThreatsCount | src/game/aiController.ts:92-105 | when every hit list is free of repeats, the threats hold a tile once per (unit, move tile) pair whose hit list holds it |
| AI.ThreatsCounted | src/game/aiController.ts:92-105 | every hit list of the player units' reach is free of repeats, so a tile is threatened once per (unit, move tile) pair from which it is in attack range |
| AI.ThreatsOfCounted | src/game/aiController.ts:92-105 | any threat list of the player units holds each tile exactly once per (unit, move tile) pair from which it is in attack range |
| AI.ReachDistinct | src/game/aiController.ts:117-118 | the tiles a unit weighs, its walkable range and then its own tile, hold no tile twice |
| AI.HitListsSnoc | src/game/aiController.ts:94-96 | the attack range from one more move tile extends the hit lists built so far |
| AI.LostTrans | src/game/aiController.ts:92-105 | losing one point per entry of xs and then of ys is losing one per entry of xs + ys |
| AI.AIController.WeightPlayerUnitAtkTile | src/game/aiController.ts:100-105 | the hit list is a range the range query gives for the unit's attack range from fromTile (each tile once, by RangeDistinct); each tile in it loses exactly one point, every other tile none |
| AI.LoseOne | src/game/aiController.ts:102 | one more tile losing a point keeps each weight equal to its start minus the times the tile was hit |
| AI.LosePerTile | src/game/aiController.ts:101-104 | each tile loses one point per occurrence in the list; the board and neighbour lists are unchanged |
| AI.AIController.WeightUnitThreats | src/game/aiController.ts:94-96 | for each move tile, in order, the attack range from it as the range query gives it (each tile once); each tile loses one point per move tile whose attack range holds it |
| AI.AIController.WeightUnitMoves | src/game/aiController.ts:93-96 | the move tiles are the unit's walkable range for its full move range, in the query's order and each tile once; the hit lists are its attack ranges from them; each tile loses one point per move tile whose attack range holds it |
| AI.AIController.WeightPlayerAtkTile | src/game/aiController.ts:92-98 | for each player unit, its walkable range for its full move range, and from each of those tiles its attack range, all as the range query gives them; each tile loses one point per occurrence in the threats, which ThreatsCounted shows is one point per (unit, move tile) pair whose attack range holds it |
| AI.AIController.WeightAIUnitMove | src/game/aiController.ts:115-132 | one draw r is used; the board is unchanged; the pick is a proposal for the unit and is PickOf(actions, r) for the actions built from the unit's reach (the walkable range in the query's order, each tile once, then its own tile), hence (PickedIsHeaviest) outweighed by none of them and never the last of a tied run longer than one |
| AI.AIController.WeighAndPick | src/game/aiController.ts:115-131 | for a given draw r: the actions are those built from a reach of the unit (each tile once, in the query's order, then the unit's tile), and the pick is PickOf among them, outweighed by none and a proposal |
| AI.AIController.Weigh | src/game/aiController.ts:116-121 | the reach is the unit's walkable range, in the query's order, plus its own tile; one action is built per reach tile, in order; there is at least one, and each is a proposal |
| AI.AIController.BuildActions | src/game/aiController.ts:119-121 | one action per reachable tile, in order, each the constructor's action from that tile and a proposal for the unit |
| AI.AIController.Reachable | src/game/aiController.ts:117-118 | a walkable range of the unit's move range from its tile, as the range query gives it (its closing order), followed by the unit's own tile; no tile occurs twice; every other entry is free and within the move range |
| AI.AIController.ProposeFrom | src/game/aiController.ts:120 | the constructor's action for one tile: it stays on the unit's tile or moves to the given free tile, and its weight and target are the first maximum over the attack range from there |
| AI.AIController.WeightAIMove | src/game/aiController.ts:107-113 | one action per AI unit, in roster order, the j-th being what weightAIUnitMove returns for that unit with the j-th draw after the current one; one draw per unit |
| AI.AIController.Reweigh | src/game/aiController.ts:51-62 | the current action is replaced by what weightAIUnitMove returns for its unit with the next draw, which needs no further recomputation; every other action is kept; one draw is used |
| AI.AIController.PerformAction | src/game/aiController.ts:48-66 | exactly one message is sent: a move to a free tile, an attack on a target standing on a tile, or the step's rest; every action from the old index to the new one is the old action or a fresh pick for its unit; the ones skipped have neither move nor target |
| AI.AIController.Retry | src/game/aiController.ts:51-62 | the recomputing branch: the same promise as performAction |
| AI.AIController.StartNextAction | src/game/aiController.ts:68-83 | the index advances; past the last action, a rest for the first AI unit of highest HP is sent, otherwise the next action is performed as performAction promises |
| AI.AIController.OnMoveEnd | src/game/aiController.ts:36-46 | when the current action belongs to the unit: with a target, exactly its attack instance is sent and the list and index stay; without one, the next action starts; otherwise nothing happens |
| AI.AIController.Plan | src/game/aiController.ts:27-30 | the threats are those of the player's units and every tile's weight ends as minus its count in them, which ThreatsOfCounted shows is the number of (player unit, move tile) pairs whose attack range holds it; the plan holds one action per AI unit, the j-th being what weightAIUnitMove returns for it with the j-th draw, each ready to perform |
| AI.AIController.Begin | src/game/aiController.ts:30-32 | the ordered plan becomes the list with index 0 and its first step is performed, as performAction promises; what holds of the plan and the threats still holds |
| AI.AIController.StartTurn | src/game/aiController.ts:27-33 | the plan and threats are as Plan says; the action list is the plan ordered by sortActions, except that actions up to the current one may be fresh picks for the same unit; exactly one message, the current step's, is sent |
| AI.AIController.OnTurnChanged | src/game/aiController.ts:24-34 | outside the AI's turn the list is dropped, weights are untouched and nothing is sent; on it the turn starts as StartTurn says |
| Player.PlayerController.constructor | src/game/playerController.ts:27-35 | the controller starts selecting, with no selection and the buttons hidden |
| Player.PlayerController.OnTurnChanged | src/game/playerController.ts:92-99 | the behaviour is selecting on the player's turn and none otherwise |
| Player.PlayerController.OnUnitSelected | src/game/playerController.ts:114-123 | the unit is remembered; the buttons are shown for a unit and hidden for none |
| Player.PlayerController.SelectingClick | src/game/playerController.ts:166-177 | the clicked unit is selected exactly when no action is in flight, the tile is occupied and the unit is the player's; otherwise the selection is cleared |
| Player.PlayerController.OnMoveUnit | src/game/playerController.ts:125-129 | back to selecting; a move from the unit's tile to the tile is sent |
| Player.PlayerController.OnAttack | src/game/playerController.ts:131-135 | clicks are ignored from now on; the attack instance on the tile's unit is sent |
| Player.PlayerController.OnCancelAction | src/game/playerController.ts:137-144 | back to selecting; the buttons are shown again when a unit is selected |
| Player.PlayerController.MoveClick | src/game/playerController.ts:196-204 | a move is sent exactly when no action is in flight and the tile is in the painted range; otherwise the action is cancelled |
| Player.PlayerController.AttackClick | src/game/playerController.ts:223-231 | an attack is sent exactly when no action is in flight and the tile is one of the enemy tiles; otherwise the action is cancelled |
| Player.PlayerController.OnTileClicked | src/game/playerController.ts:88-90 | the click goes to the current behaviour: none changes nothing and sends nothing; selecting, moving and attacking do exactly what SelectingClick, MoveClick and AttackClick promise |
| Player.PlayerController.ChooseMove | src/game/playerController.ts:67-71 | the buttons hide and the walkable range of the selected unit, as the range query gives it, is painted and kept; the behaviour is moving |
| Player.PlayerController.ChooseAttack | src/game/playerController.ts:56-60 | the buttons hide and the enemy tiles in the selected unit's attack range, as the range query gives it, are kept; the behaviour is attacking |
| Player.PlayerController.ChooseRest | src/game/playerController.ts:78-82 | the buttons hide, clicks are ignored, and a rest for the selected unit is sent |

## Left out

- Rendering and engine calls are not modelled: materials, `setMaterial` painting, `clearPaintedTiles`, transforms, `lookAt`, billboards, debug text, life bars, the screens and logging. `clearPaintedTiles` only repaints; it does not reset the painted list, so it has no modelled effect.
- Tweens (`FollowPathComponent`, `RotateTransformComponent`) are not timed. Their completion callbacks are explicit steps: `Unit.CompleteMove` and `AttackState.CompleteRotation`.
- The `StateMachine` driver, `transfromSystem`, `Unit.rest` and `Unit.getFullMoveRange` are not part of this model. `getFullMoveRange` enters as the parameter `fullMoveRanges`.
- Executing a message (`MessageManager.send` calls `execute`) is not modelled. Messages are recorded in order. `GridManager.getPath` is the search `SearchWalkableTile`.
- Listener delivery is not modelled. Tile click listeners, turn listeners and unit listeners are recorded as identifiers and event logs, not called. `onMoveEnd` is modelled as a method that may be called at any point. Nothing in the source calls it: `Unit.IUnitListener` (src/unit/unit.ts:184-189) declares no `onMoveEnd`, and src/game.ts registers no AIController as a listener. The method models what a call would do.
- Unit HP is an input. In the source `_currentHP` is never assigned (src/unit/unit.ts:18, 93-95), so getHP() answers undefined: the kill test and the +5/+3 kill scores (src/game/aiController.ts:169-170) never apply there, and highestHP keeps the first unit. The model takes HP as a number to state what the code computes for a defined HP.
- Projectile flight is not modelled. A projectile is represented by its start delay, and its `hasFinished()` answers are parameters.
- `Math.random` is the `RandomSource` stream.
- `Unit.getGlobalPosition`, `GridManager.getGrid`, `addToGrid`, `addOnTileListener`, `Tile.selectTile` and `AIAction.toString` are host-side plumbing and are not modelled.
- Positions are exact reals. Float rounding in `DistanceSquared` and in the damage formula is not modelled.
- The fallback threshold of `searchWalkableTile` (tileSize + tileSpacing·0.5, times 1.5) is passed in as its two inputs.
- AStar.GetDistance: proves that a walk without repeated tiles of the returned length exists, and 1 for a neighbour, not that the length is the shortest. The greedy search does not find shortest paths in general.
- AStar.SearchWalkableTile: `tileSize` and `tileSpacing` come from the grid singleton in the source.
- AIScoring.SortActions: the source's comparator returns `undefined` when only the second action finishes the turn, which is not a consistent order. The model fixes one order consistent with every answer the comparator does give: moving actions first in their input order, then attacking actions heaviest first (stably).
- AIScoring.SortByWeight: JavaScript's sort is stable. The difference of two minus infinities is NaN and is treated as 0, so those actions count as tied.
- GridManagement.GridManager.GetAndPaintTilesForAttack: requires that the source tile is occupied and that every occupant belongs to a faction, since the source dereferences both.
- AI.AIController.PerformAction: keeps the recompute branch of src/game/aiController.ts:59-61 for an attack target without a tile. The source never reaches that branch. Its log at line 50 calls `AIAction.toString`, and that reads the target's tile name (line 194), so the source throws there. The model recomputes the action and sends a message instead. A recomputed action never takes this branch: `AI.AIController.Reweigh` ensures `Settled`, so its target, if any, stands on a tile.
- AI.AIController.PerformAction: requires that every unit standing on a tile records that tile, which is what `setInTile` and the move completion keep. The model needs this to show that a recomputed action is performed at once, so that its recursion ends. In the source a recomputed move cannot repeat either, because the reach it picks from holds only free tiles.
- AI.AIController.OnTurnChanged: the index starts at 0 in the constructor, whereas the source leaves it undefined until the AI's first turn. The method requires the bonus table to exist, although the source reads it only when an enemy is in range. It also requires the AI to have a unit, since the source reads the first action.
- AI.AIController.WeightAIUnitMove: the pick is `floor(random × lastTied)`. The last action of a tied run is never picked, and a run of length one gives index 0. Both are proved as written (AIScoring.PickOfHeaviest).
- Player.PlayerController.ChooseMove: requires a selected unit on a tile. The buttons are shown only for a selected unit.
- Player.PlayerController.ChooseAttack: requires a selected unit on a tile and every occupant to belong to a faction. The source dereferences both.
- Player.PlayerController.OnTileClicked: requires the bonus table to exist, the clicked tile's unit to belong to a faction, and, in the attacking behaviour, a clicked enemy tile to be occupied, since the source dereferences all three (the last through `atkTile.object as Unit`, src/game/playerController.ts:134).
- AI.AIController.OnMoveEnd: requires the current index to lie inside the action list whenever there is one. The source reads the current action without a bound check and would fail on `undefined.unit`.
- GridManagement.GridManager.GetTilesWithinDistance: the getDistance answers are pinned to a walk without repeated tiles of that length, 1 for a neighbour, or -1 when none exists, since the greedy search does not find shortest paths. So every enterable neighbour of src is in the result when dist >= 1, and a tile reachable within dist steps further out is promised to be in the result unless getDistance answered more than dist for it.
- AI.AIController.WeightAIUnitMove: the draw is taken before the actions are built, whereas the source draws after sorting. The draw does not depend on the board, so the pick is the same.
- AI.AIController.WeightUnitThreats, AI.AIController.WeightUnitMoves, AI.AIController.Weigh, AI.AIController.WeighAndPick, AI.AIController.Retry, AI.AIController.Begin, GridManagement.FirstNeighbour, GridManagement.OpenNeighbour, GridManagement.OpenNeighbours, GridManagement.GatherRing, GridManagement.CloseTile and GridManagement.RangeIteration are parts of the source functions named in their rows, split out so each proof stays small.
