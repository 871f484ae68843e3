# the-rust-of-us, core game logic in Dafny

A model of the game logic of *the-rust-of-us*, a small Bevy game. Humans,
monsters and skeletons walk an 8 x 8 board. They look for enemies, chests
and graves, fight, loot and take damage. The model covers four parts of the
game and proves properties of each:

- **Board and path-finding** (`grid.dfy`, `map.dfy`). The walkability grid and
  the four-connected successors. The Manhattan heuristic. The Bresenham
  line-of-sight walk and the greedy waypoint smoothing. `find_path`, with the
  external A* replaced by a breadth-first search that is proved sound and
  complete. The scan of a symbol board into walkability plus entrance and
  exit. The parsing of `"e2"`-style coordinates.
- **Map generation from a key** (`gen.dfy`). The tree border, the obstacles
  derived from the key's characters, the two gates, the random placement of
  treasure and grave, and the "pave" repair that carves cells walkable until
  the exit and every marker are reachable. Random numbers are an explicit
  input.
- **Agent brains** (`common.dfy`, `geometry.dfy`, `thinker.dfy`, `fight.dfy`,
  `loot.dfy`, `skeleton.dfy`). The drives (concern, satisfy, attention) grow
  and are capped at 100, and scores are a drive divided by 100. Every action
  follows the big_brain contract: Requested → Executing → Success/Failure,
  and Cancelled → Failure. Nearest-target selection uses squared distance.
  Each ECS system is a method over an array of rows. A row holds one action,
  scorer or guard together with the components of its actor that the system
  reads and writes, and the method updates it in place.
- **Health, damage and chests** (`bar.dfy`, `damage.dfy`, `toggle.dfy`).
  The clamped `Stat` bar. Damage that spares the dying and the attacker's
  own kind, and ends the game when a human dies. Damage indicators that
  count down. The chest table, where a toggle opens a closed chest.

Positions are `real` pairs. Vector length needs a square root, so every
system that measures distance takes a function `length`. Lemmas that need
its meaning assume `IsLength(length)`: the length is non-negative and its
square is the squared length. A Rust panic (`expect`, `unwrap`, `todo!`, an
empty `gen_range`) is the `Panic` case of `Run`.

## Model

| member | source | states |
|---|---|---|
| Common.Grow | src/brains/thinker.rs:33-41 | a drive tick gives `level + per_second * dt`, or 100 exactly when that sum reaches 100; never above 100, and never below the old level for a non-negative increment |
| Common.DriveScore | src/brains/thinker.rs:112 | the score is the drive over 100: in [0,1] for a drive in [0,100], and at least the 0.8 threshold exactly when the drive is at least 80 |
| Common.IdleUnlessDie | src/brains/fight.rs:218-220 | a stopping action leaves the intent Idle, unless it is Die, which stays |
| Common.Clamp | src/characters/bar.rs:49 | `f32::clamp` with `lo <= hi`: the result lies in [lo,hi], equals the input inside it, and is the bound it crossed otherwise |
| Geometry.LengthSquared | src/brains/thinker.rs:210-211 | the squared length is never negative |
| Geometry.StepTowardSquared | src/brains/thinker.rs:255-259 | after `pos += normalize(delta) * min(step, dist)` the squared distance left is `(dist - min(step, dist))^2` |
| Geometry.StepTowardFull | src/brains/thinker.rs:255-259 | a step at least as long as the distance puts the agent exactly on the target |
| Geometry.StepTowardRemaining | src/brains/thinker.rs:252-262 | a movement step never overshoots: the distance left is `dist - min(step, dist)`, and a step at least as long as the distance lands on the target |
| Thinker.FirstMin | src/brains/thinker.rs:207-213 | `min_by` settles on an index of minimum value, and every earlier element is strictly larger, so ties go to the first |
| Thinker.FindClosestTarget | src/brains/thinker.rs:203-215 | `None` exactly when there are no targets; otherwise one of the targets |
| Thinker.ClosestIsNearest | src/brains/thinker.rs:203-215 | the target found is at minimum squared distance, and every target before it is strictly farther |
| Thinker.GuardSystem | src/brains/thinker.rs:33-41 | every guard's concern takes one `Grow` tick; nothing else changes |
| Thinker.GuardingScorerSystem | src/brains/thinker.rs:106-115 | every scorer whose actor has a guard reports `concern / 100`; other scorers are untouched |
| Thinker.LookAroundStep | src/brains/thinker.rs:63-98 | follows the action contract; Requested starts; with no target an executing action goes on unchanged; too far away it fails with the concern kept; a success has concern 0 and a target in range |
| Thinker.LookAroundDrains | src/brains/thinker.rs:72-83 | in range the concern drains by `per_second * dt` and the action succeeds exactly when it is used up; a non-negative concern never grows and never goes below 0 |
| Thinker.NearestDistance | src/brains/thinker.rs:70-72 | there is a distance to report exactly when there is a target |
| Thinker.GuardActionSystem | src/brains/thinker.rs:50-101 | every LookAround action takes one step against the distance to the target nearest its actor |
| Thinker.ApproachStep | src/brains/thinker.rs:231-281 | follows the action contract; only an executing action with a target moves its actor; beyond the threshold it walks toward the target, otherwise it succeeds and idles in place |
| Thinker.ApproachNeverOvershoots | src/brains/thinker.rs:252-262 | beyond the threshold the actor walks (intent Walk) and ends `min(speed * dt, distance)` closer, landing on the target when the step covers the distance |
| Thinker.MoveToNearestSystem | src/brains/thinker.rs:218-283 | with no target nothing at all changes; otherwise every action takes one approach step toward the target nearest its actor |
| Thinker.GetThinker | src/brains/thinker.rs:119-182 | humans and monsters get a FirstToScore thinker at 0.8 whose fight choice (move to the other kind, fight for 10 at 25 per second) is registered before the duty choice, with each kind's guard steps in order; any other type panics |
| Fight.FightAttention | src/brains/fight.rs:52-67 | a living nearest enemy in sight grows the attention; a dead one resets it to 0; otherwise it stays; attention stays in [0,100] |
| Fight.FightSystem | src/brains/fight.rs:32-80 | only humans and monsters update attention; for other kinds nothing changes |
| Fight.HeldScore | src/brains/fight.rs:92-107 | not fighting: report `attention / 100` and drop the stored score; fighting: report the stored score, storing the current one first if none is stored |
| Fight.ScoreAll | src/brains/fight.rs:83-114 | one scorer pass keeps every drive, leaves scorers without a Fighter alone, scores every idle fighter `attention / 100`, and ends with no stored score after an idle fighter |
| Fight.HeldWhileEngaged | src/brains/fight.rs:92-97 | once a score is stored, every fighting actor reports it and it stays stored; the stored value is shared by all actors, not kept per actor |
| Fight.HeldScorer.Score | src/brains/fight.rs:83-114 | the pass over the scorer query updates the rows and the `Local` stored score as `ScoreAll` says |
| Fight.FightScorerSystem | src/brains/fight.rs:83-114 | humans' and monsters' scorers run one pass; for other kinds nothing changes |
| Fight.GetFighter | src/brains/fight.rs:116-134 | humans and monsters start not fighting, growing by 4 per second from 70, which scores below the 0.8 threshold; other kinds get no Fighter |
| Fight.FightStep | src/brains/fight.rs:159-222 | Requested engages; a living target is locked, faced and attacked; a dead target or none drops the lock, disengages, resets the attention and succeeds (idling unless dying when there is none); Cancelled disengages and fails; other states are untouched; a dying agent only ever switches to Attack |
| Fight.FightActionSystem | src/brains/fight.rs:137-227 | every Fight action whose actor has a Fighter and a body takes one `FightStep` |
| Loot.LootAttention | src/brains/loot.rs:54-72 | an unlooted target in sight grows the attention; no target left resets it to 0; otherwise it stays; attention stays in [0,100] |
| Loot.LootSystem | src/brains/loot.rs:36-81 | only humans update loot attention; for other kinds nothing changes |
| Loot.LootScorerSystem | src/brains/loot.rs:84-115 | humans' and monsters' loot scorers run the held-score pass; for other kinds nothing changes |
| Loot.GetLooter | src/brains/loot.rs:117-134 | humans and monsters start not looting, growing by 4 per second from 70, below the 0.8 threshold; other kinds get no Looter |
| Loot.LootStep | src/brains/loot.rs:163-212 | Requested engages; while a target remains the agent locks it, faces it, opens it and never succeeds; with none left it drops the lock, disengages, resets the attention and succeeds; Cancelled disengages and fails; other states are untouched |
| Loot.LootActionSystem | src/brains/loot.rs:138-217 | every Loot action whose actor has a Looter and a body takes one `LootStep` |
| Skeleton.FindClosestTarget | src/brains/skeleton.rs:250-262 | panics exactly when there is no target; otherwise returns one of the targets |
| Skeleton.ClosestIsNearest | src/brains/skeleton.rs:250-262 | with targets present it does not panic and the target found is at minimum squared distance |
| Skeleton.GuardSystem | src/brains/skeleton.rs:31-42 | every guard's satisfy takes one `Grow` tick |
| Skeleton.GuardingScorerSystem | src/brains/skeleton.rs:190-199 | every scorer whose actor has a guard reports `satisfy / 100` |
| Skeleton.ChaseStep | src/brains/skeleton.rs:71-128 | panics exactly when executing with no target; otherwise follows the action contract and moves the actor only while executing |
| Skeleton.ChaseTowardNearest | src/brains/skeleton.rs:84-118 | an executing chase with targets walks `min(speed * dt, distance)` toward the nearest one beyond 32 units, and succeeds and idles within them |
| Skeleton.ChaseAll | src/brains/skeleton.rs:78-127 | panics exactly when there is no target and some action is executing; otherwise every row takes one `ChaseStep` |
| Skeleton.MoveToChestActionSystem | src/brains/skeleton.rs:54-130 | panics exactly when there is no chest and some action is executing; otherwise every action takes one chase step |
| Skeleton.MoveToNearestSystem | src/brains/skeleton.rs:265-324 | panics exactly when there is no target and some action is executing; otherwise every action takes one chase step |
| Skeleton.LookStep | src/brains/skeleton.rs:152-182 | panics exactly when executing with no chest; otherwise follows the action contract and touches satisfy only while executing |
| Skeleton.GuardNearChest | src/brains/skeleton.rs:158-177 | near the chest satisfy drains and the action succeeds, clamped to 0, once it is used up; 32 units or more away it fails with satisfy kept |
| Skeleton.GuardActionSystem | src/brains/skeleton.rs:139-185 | panics exactly when there is no chest and some action is executing; otherwise every action takes one LookAround step |
| Skeleton.GetThinker | src/brains/skeleton.rs:203-223 | a FirstToScore thinker at 0.8 with the single Duty sequence MoveToChest, LookAround, MoveToNearest grave, Sleep |
| Bar.Lowered | src/characters/bar.rs:57-59 | `-=` stores a value in [0,max]: exact when the difference is in range, 0 when below, and never above the old value for a non-negative amount |
| Bar.Raised | src/characters/bar.rs:48-50 | `+=` stores a value in [0,max]: exact when the sum is in range, max when above, and never below the old value for a non-negative amount |
| Bar.LowerThenRaise | src/characters/bar.rs:44-60 | lowering and raising by the same amount restores a value that did not hit the floor |
| Bar.Stat.Default | src/characters/bar.rs:17-28 | a full bar of 10 |
| Bar.Stat.NewFull | src/characters/bar.rs:34-41 | for positive `v`, a full bar of `v` |
| Bar.Stat.AddAssign | src/characters/bar.rs:44-51 | the value becomes the clamped sum, the max is kept, and the bar invariant `0 <= value <= max` holds after |
| Bar.Stat.SubAssign | src/characters/bar.rs:53-60 | the value becomes the clamped difference, the max is kept, and the bar invariant holds after |
| Bar.Stat.StatbarValue | src/characters/bar.rs:62-69 | the fraction times max is the value; for a valid bar it lies in [0,1] and is 1 exactly when the bar is full |
| Bar.Adjusted | src/control/bar.rs:92-108 | pressing neither key keeps the value, one key lowers or raises it, both keep a value at least `delta` above 0, and any key press lands in [0,max] |
| Bar.AdjustAll | src/control/bar.rs:93-108 | every bar of a query takes the optional `-=` then the optional `+=`, max kept |
| Bar.AdjustStats | src/control/bar.rs:86-109 | health bars follow A/S and magic bars Q/W with `delta = 5 * dt`; every valid bar stays valid |
| Damages.HitTarget | src/core/damage.rs:89-113 | dying targets and the attacker's own kind are untouched; any other loses `power` health through the clamped `-=`, becoming Hurt exactly when health remains and Die exactly when it is gone |
| Damages.DamageAreaIgnored | src/core/damage.rs:85-99 | the damage's position, radius, direction and duration never change its effect |
| Damages.HitAll | src/core/damage.rs:85-116 | a batch of events keeps kind and max, never revives the dying, spares a target all of whose attackers are its own kind, keeps health in range and never raises it, and kills only at health 0 |
| Damages.HumanDiedStep | src/core/damage.rs:102-110 | one hit makes a human newly dead exactly when it kills a living human |
| Damages.HitEach | src/core/damage.rs:86-115 | one event hits every target, and the game-over flag tracks whether a human has died so far |
| Damages.UpdateDamage | src/core/damage.rs:80-117 | every target takes every event in order, and the game is set over exactly when some human target went from alive to Die |
| Damages.ExpiredExactly | src/core/damage.rs:72-76 | the indicators despawned are exactly those whose duration is at most 0, in order |
| Damages.DespawnDamageIndicator | src/core/damage.rs:67-78 | every duration falls by `dt` and the despawned indicators are those now at or below 0 |
| Damages.DespawnFighterOnDeath | src/core/damage.rs:119-130 | a dying character loses its Fighter; every other row is unchanged |
| Toggles.ToggleOne | src/interactions/toggle.rs:32-36 | a toggle naming a chest in the table leaves it Open; an unknown id changes nothing; other chests are untouched; the key set is kept |
| Toggles.ToggleIdempotent | src/interactions/toggle.rs:33-35 | toggling the same chest twice is toggling it once |
| Toggles.ToggleAll | src/interactions/toggle.rs:31-38 | after a batch a chest is Open exactly when it was Open or some event names it; keys and the set of chests never change |
| Toggles.Chests.constructor | src/core/chest.rs:8-26 | the `Chests` resource holds the given id-to-chest table |
| Toggles.Chests.UpdateToggleChest | src/interactions/toggle.rs:27-39 | the table after the events is `ToggleAll` of the table before |
| GridMap.Keep | src/core/map.rs:26 | a neighbour is kept, with cost 1, exactly when it is walkable |
| GridMap.Successors | src/core/map.rs:20-28 | panics exactly off the interior (where `x - 1` or `y - 1` underflows or an index leaves the grid); otherwise at most four successors, each of cost 1 |
| GridMap.SuccessorsExact | src/core/map.rs:20-28 | inside the grid the successors are exactly the walkable four-neighbours, in the order left, right, up, down |
| GridMap.Distance | src/core/map.rs:30-32 | the Manhattan distance is 0 exactly for equal cells and 1 exactly for adjacent ones |
| GridMap.DistanceSymmetric | src/core/map.rs:30-32 | the heuristic is symmetric |
| GridMap.DistanceAdmissible | src/core/map.rs:30-32 | the heuristic never exceeds the number of moves of a walk to the goal |
| GridMap.LineCellsShape | src/core/map.rs:49-65 | the line walk starts at the first endpoint, ends at the second, stays in their bounding box and moves one king step at a time |
| GridMap.LineCellsAdjacent | src/core/map.rs:49-65 | between adjacent cells the walk visits just the two |
| GridMap.LineWalkableEnds | src/core/map.rs:49-66 | a clear line has walkable endpoints |
| GridMap.LineWalkableAdjacent | src/core/map.rs:49-66 | two adjacent walkable cells see each other |
| GridMap.IsWalkableLine | src/core/map.rs:36-67 | the loop terminates and returns true exactly when every cell of the Bresenham walk from the first endpoint to the second is walkable |
| GridMap.SmoothingShape | src/core/map.rs:69-83 | a smoothing keeps the first and last cells of the path, and consecutive waypoints see each other |
| GridMap.LongestSight | src/core/map.rs:74-77 | the inner loop stops at least two past `i`, after every cell `path[i]` sees, and at the end or at the first cell it does not see |
| GridMap.SmoothPath | src/core/map.rs:69-83 | the result is the greedy smoothing of the path: waypoints at increasing positions from the first cell to the last, each run maximal |
| GridMap.FindPath | src/core/map.rs:85-113 | as written: an unreachable goal panics, and so does any start at the grid's edge other than the goal (A* expands it and `successors` fails); from an edge-free start it panics exactly when the goal is unreachable; a result is a walkable four-adjacent route from start to goal costing its number of moves, smoothed when asked, with the unsmoothed cost |
| GridMap.ClosedBorderEdgeFree | src/core/map.rs:20-28 | on a grid whose walkable cells are all interior, no cell the search can reach from an interior start is at the edge, so `successors` never panics |
| GridMap.TryFindPath | src/core/map.rs:85-113 | corrected: a search that looks only at neighbours inside the grid and returns `None` exactly when the goal is unreachable, and otherwise the same result as `FindPath` promises |
| GridMap.WallBlocksRoute | src/core/map.rs:20-28 | a fully blocked row separates the rows above it from those below |
| GridMap.LastMarkerSpec | src/core/map.rs:157-176 | the row-major scan finds the last occurrence of a marker before a point, or none exactly when there is none |
| GridMap.MarkerAtLast | src/core/map.rs:157-176 | the cell the scan reports for a marker (or (0,0)) is the last cell holding it in row-major order, or (0,0) when none does |
| GridMap.GenerateMap | src/core/map.rs:152-179 | gates and trees are unwalkable and every other symbol walkable; the entrance and exit are the last 🆕 and 🆒 in row-major order, or (0,0) when absent |
| GridMap.ConvertMapToScreen | src/core/map.rs:181-197 | a coordinate parses exactly when it has at least two characters, a letter a–h in either case and a digit 1–8; the result is the cell it names |
| GridMap.ConvertScreenName | src/core/map.rs:181-197 | naming a board cell and parsing the name gives the cell back |
| GridMap.ScreenNameConvert | src/core/map.rs:181-197 | a parsed coordinate is the lower-case name of the cell it parses to |
| GridMap.ConvertIgnoresTail | src/core/map.rs:181-197 | characters after the second never change the result |
| Grid.Search | src/core/map.rs:92-101 | the breadth-first search standing in for A* (neighbours inside the grid only) returns a walkable four-adjacent route from start to goal, and nothing only when none exists |
| Grid.OpenGridRoute | src/maps/gen.rs:8-16 | on an all-walkable grid any two cells are connected |
| MapGen.FillEdges | src/maps/gen.rs:94-102 | rows 0 and 7 and columns 0 and 7 are trees, every other cell is a trail |
| MapGen.Pick | src/maps/gen.rs:131-137 | a draw turned into `gen_range(lo..=hi)` lies in [lo,hi] |
| MapGen.GateColumn | src/maps/gen.rs:113-122 | a gate column `1 + (ch as u8) % 6` lies in [1,6] |
| MapGen.ObstacleCell | src/maps/gen.rs:105-108 | the obstacle of character `i` lies on the board in rows 1–7 |
| MapGen.PlaceObstacles | src/maps/gen.rs:104-109 | after the obstacle loop every cell holds the layout the key determines |
| MapGen.CoinCell | src/maps/gen.rs:130-134 | each round's treasure lands strictly inside the border |
| MapGen.SkullCell | src/maps/gen.rs:135-139 | each round's grave lands strictly inside the border |
| MapGen.RoundBlocks | src/maps/gen.rs:128-141 | a round never clears (c,1): it is blocked by 💰 or 💀 after the round exactly when it was before or the round drops one there |
| MapGen.RoundScatters | src/maps/gen.rs:128-139 | a round keeps the board scattered: layout, gates and markers only inside the border |
| MapGen.PlaceMarkersAsWritten | src/maps/gen.rs:128-146 | the loop as written ends (with 🆒 at (c,1) and 🆕 at (a,6) on the board of its first round) exactly when four draws are there and neither (c,1) before the loop nor the first round blocks the exit cell; otherwise it never ends (or the draws run out) |
| MapGen.PlaceMarkers | src/maps/gen.rs:128-146 | the corrected loop gives a board exactly when (c,1) is free before the loop and some round of four draws leaves it free; the board is that of the first such round, every earlier round hits (c,1), and then 🆒 is at (c,1) and 🆕 at (a,6) |
| MapGen.FirstRoundBlocks | src/maps/gen.rs:128-146 | draws starting `[0, c-1]` put the first treasure on (c,1), while a second round `[5, 5, 5, 5]` leaves it free |
| MapGen.GenMapFromPublicKey | src/maps/gen.rs:91-151 | panics exactly for a key shorter than two characters; otherwise yields a map exactly when some round of four draws leaves the exit cell free; a generated map has the key's layout, its walkability, and entrance (a,6) and exit (c,1) |
| MapGen.KeyBoardEdges | src/maps/gen.rs:96-124 | the border is unwalkable and holds gates exactly at (c,0) and (a,7) |
| MapGen.MarkersMakeKeyBoard | src/maps/gen.rs:127-146 | putting 🆒 at (c,1) and 🆕 at (a,6) on the scattered board gives the board the key determines |
| MapGen.KeyBoardMarkers | src/maps/gen.rs:141-148 | on a key's board the only 🆕 is at (a,6) and the only 🆒 at (c,1), so `generate_map` finds the entrance and exit there |
| MapGen.SameKeySameLayout | src/maps/gen.rs:96-124 | the same key gives the same border, gates and obstacles |
| MapGen.GeneratedEdgeFree | src/maps/gen.rs:94-148 | on a generated map every cell reachable from the entrance is interior, so `find_path` as written panics there exactly for an unreachable goal |
| MapGen.GeneratedEndsInterior | src/maps/gen.rs:141-148 | the entrance and exit are interior cells, so the path search from them never underflows |
| MapGen.BlockingKeyWalled | src/maps/gen.rs:104-109 | a concrete key walls row 3 with trees, so its entrance cannot reach its exit |
| MapGen.AlwaysFindPath | src/maps/gen.rs:8-16 | on the open board the corrected search always succeeds with a route costing its number of moves |
| MapGen.OpenBoardCornerPanics | src/maps/gen.rs:8-16 | on the open board (0,0) reaches (0,1), yet `successors` panics on (0,0), so `find_path` as written panics on a reachable goal |
| MapGen.CarvedTransitive | src/maps/gen.rs:39-44 | carving composes: no walkable cell is lost and only unwalkable cells are re-tagged |
| MapGen.CarvedCovers | src/maps/gen.rs:39-44 | after carving every formerly walkable cell is still walkable |
| MapGen.PavedRoute | src/maps/gen.rs:69-74 | after paving an open-board route, the route is walkable |
| MapGen.PavedReach | src/maps/gen.rs:34-44 | paving a route from a node of the main route makes its target reachable from the entrance |
| MapGen.Board.Pave | src/maps/gen.rs:69-74 | every unwalkable cell of the path becomes walkable and is re-tagged ➖; nothing else changes |
| MapGen.Board.MainRoute | src/maps/gen.rs:62-78 | returns a walkable route from entrance to exit, paving the open-board route only when the exit was unreachable |
| MapGen.Board.CheckCell | src/maps/gen.rs:28-45 | a target cell that was unreachable becomes reachable by paving from a main-route node drawn from [1, len-1); panics only for a main route under 3 cells |
| MapGen.Board.CheckAndPavePath | src/maps/gen.rs:18-49 | after the scan every cell holding the target is reachable; an already reached board is unchanged |
| MapGen.Board.RefineWalkableMap | src/maps/gen.rs:53-87 | the refined board only gains walkable cells, and the exit and every treasure and grave are reachable from the entrance |
| MapGen.CheckAndPavePathAsWritten | src/maps/gen.rs:18-49 | as written: never paves; an unreachable target cell panics, and from an edge-free entrance only an unreachable target panics |
| MapGen.RefineWalkableMapAsWritten | src/maps/gen.rs:53-87 | as written: panics unless the exit and every marker are already reachable, exactly so from an edge-free entrance, and otherwise returns the board unchanged |

## Left out

- The A* library (`pathfinding::astar`) is replaced by `Grid.Search`, a breadth-first search. It promises a route whenever one exists, as A* does. It looks only at neighbours inside the grid, so it does not model the `successors` panic on edge cells (see Findings). Which route it returns when several are shortest is not the library's. Its cost is the length of the route found, not necessarily the minimum.
- GridMap.FindPath: when the start is interior but a walkable edge cell is reachable from it, whether A* expands that cell, and so panics, depends on its queue order. The contract leaves Done or Panic open there. On generated maps this never happens (`MapGen.GeneratedEdgeFree`).
- MapGen.AlwaysFindPath, MapGen.Board.MainRoute, MapGen.Board.CheckCell, MapGen.Board.CheckAndPavePath, MapGen.Board.RefineWalkableMap: these use the corrected, bounds-checked search. Where the source's A* would expand an edge cell and panic, they return a route instead. The source never reaches that case: the entrance and the main-route nodes are interior cells of a generated map, and between interior cells of the open board A* expands only the bounding box of the two ends, every other cell costing at least two extra moves.
- Floating point is replaced by reals, so NaN, infinities and rounding are not modelled. A squared-distance comparison never fails (`partial_cmp(..).unwrap()`), and `normalize` of a zero vector does not arise.
- Thinker.ApproachStep: requires a non-negative threshold, because stepping from distance 0 would normalise a zero vector. Thinker.MoveToNearestSystem demands the same of every row (`MoveRowOk`).
- Bar.Stat.AddAssign: requires `0 <= max`, because `f32::clamp` panics when its lower bound exceeds its upper bound. The same holds for Bar.Stat.SubAssign, and for Bar.AdjustStats through `Distinct`.
- Bar.Stat.NewFull: the `assert!(0. < value)` is a precondition rather than a modelled panic.
- Bar.Stat.StatbarValue: requires `max != 0`, because the model has no float division by zero.
- Bar.AdjustStats: the two queries are taken to hold distinct bars. The keyboard is a parameter.
- Damages.UpdateDamage: a target's `Health` bar is held by value (health, max) in the row. `NextState<GameState>` is the returned flag.
- Damages.DespawnDamageIndicator: despawning is the returned list of indices, because commands are deferred.
- Damages.DespawnFighterOnDeath: removing the component is modelled as setting it to `None`.
- Spawning damage indicators (`spawn_damage_indicator`) is not part of this model; it only renders.
- GridMap.FindPath: smoothing requires a walkable start. On a route of two or more cells whose first cell is not walkable, `smooth_path` never advances and does not terminate; the one-cell route of `start == goal` (returned as `[start]`) is also excluded, a stronger demand than the source makes. An A* route's other cells are always walkable.
- GridMap.SmoothPath: the index list `idx` is a ghost output that only witnesses the smoothing.
- MapGen.GenMapFromPublicKey: `OsRng` is a finite list of draws. A run that exhausts the draws returns `None` (no map) instead of looping on. It uses the corrected marker loop (see Findings).
- MapGen.PlaceMarkersAsWritten: `None` stands both for the draws running out and for the endless loop that follows a first round blocking (c,1); the contract tells the two apart by the number of draws.
- MapGen.Board.CheckCell: `thread_rng` is a function from a call counter to a draw.
- MapGen.Board.CheckAndPavePath: requires the target not to be the trail symbol ➖, which paving writes. The game only checks 💰 and 💀.
- ECS queries are arrays of rows. Each row is taken to belong to a distinct actor, so `Query::get_mut` on the same actor twice in one pass is not modelled.
- The row components that `expect` looks up (`actor has no guard`, `actor has no position`) are assumed present. A row carries them directly.
- The results of the macros `find_closest_target_with_health` and `find_closest_target_without_looted` are per-row inputs.
- The big_brain framework is not modelled: `FirstToScore` arbitration, `Steps` sequencing, spans and the action lifecycle outside the systems. `get_thinker` is modelled as the configuration value it builds.
- Geometry.StepTowardRemaining, Thinker.ApproachNeverOvershoots, Skeleton.ChaseTowardNearest: these hold for a `length` that is the Euclidean length, and for non-negative speed and `dt`.
- Sprites, animations, rendering, sounds, menus, YAML and CSV loading and the web entry point are not part of this model.
- `get_position_from_map` and `get_map_from_position` (float screen conversions) are not part of this model.

## Findings

| source | as written | input that shows it | evidently intended | confidence | as-written member | corrected member |
|---|---|---|---|---|---|---|
| src/core/map.rs:92-101 | `find_path` unwraps the A* result with `expect`, so an unreachable goal panics and the `Err` its `Result` type advertises never happens; `refine_walkable_map` and `check_and_pave_path` only pave in the `Err` branch, so their repair never runs and an unreachable layout panics instead | key `aa1000000200000030000004000000500000060` with draws `[0, 0, 0, 0]`: characters 2, 9, 16, 23, 30 and 37 plant trees across row 3, so the entrance (2,6) cannot reach the exit (2,1) | `find_path` returns `Err` for an unreachable goal, and refinement paves the main route and the routes to every marker | not executed | GridMap.FindPath, MapGen.RefineWalkableMapAsWritten, MapGen.BlockingKeyWalled | GridMap.TryFindPath, MapGen.Board.RefineWalkableMap |
| src/core/map.rs:20-28 | `successors` computes `x - 1`, `x + 1`, `y - 1` and `y + 1` and indexes `walkables` with all four, walkable or not, so it panics on any cell in row or column 0 or on the last row or column; A* calls it on every cell it expands, starting with the start | `find_path` on the all-walkable 8 x 8 grid from (0,0) to (0,1): the goal is reachable, but expanding (0,0) underflows | neighbours outside the grid are skipped, as the `TOFIX` above `successors` marks, and `find_path` fails only for an unreachable goal | not executed | GridMap.Successors, GridMap.FindPath, MapGen.OpenBoardCornerPanics | GridMap.TryFindPath, Grid.Search |
| src/maps/gen.rs:128-146 | the marker loop drops 💰 and 💀 on the board the earlier rounds left and never removes them, so once one lands on the exit cell (c,1) the test on line 141 fails in every later round and `loop` never ends | any key of two or more characters with draws starting `[0, c-1]` (c the exit column): the first treasure goes to row 1, column c | a round that blocks (c,1) is drawn again, so the loop ends at the first round that leaves the exit cell free | not executed | MapGen.PlaceMarkersAsWritten, MapGen.FirstRoundBlocks | MapGen.PlaceMarkers, MapGen.GenMapFromPublicKey |
