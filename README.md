# Warfront Tactics: grid and turn logic in Dafny

This project models the headless core of a Unity turn-based tactics game:

- the grid of overlay tiles built from a layered tile map (`MapManager.Start`);
- the tile record (`OverlayTile`);
- A* path finding over that grid (`PathFinder`);
- the range flood fill (`RangeFinder`);
- the arrow sprites drawn along a hovered path (`ArrowTranslator`);
- the units: both revisions of `CharacterData`, spawning (`CharacterSpawnManager`) and enemy targeting (`EnemyData`);
- the turn flow: `TurnManager` and `EnemyManager`.

The grid singleton `MapManager.Instance.map` is passed explicitly as a `map<(int, int), OverlayTile>` (`Board.TileMap`).
C# events are appended to logs held by the objects that fire them.
Objects the game mutates in place are Dafny classes: tiles, units, managers.
Pure computations are functions.

Modules and files:

| file | module | models |
|---|---|---|
| common.dfy | Common | Vector2Int/Vector3Int, LINQ `Distinct`, `List.Reverse`, `List.Remove` |
| arrow_translator.dfy | ArrowTranslator | `ArrowDirection`, `TranslateDirection` |
| board.dfy | Board | `OverlayTile`, `CharacterData` (Characters/), the tile dictionary |
| map_manager.dfy | MapBuilder | `MapManager.Start` |
| path_finder.dfy | PathFinding | `PathFinder` |
| range_finder.dfy | RangeFinding | `RangeFinder` |
| character_spawn.dfy | CharacterSpawning | `CharacterSpawnManager` |
| enemy_data.dfy | Enemies | `EnemyData` |
| enemy_manager.dfy | EnemyManagement | `EnemyManager` |
| turn_manager.dfy | Turns | `TurnManager` |
| legacy_character.dfy | LegacyCharacter | the older `CharacterData` |

## Model

| member | source | states |
|---|---|---|
| Common.Distinct | Assets/_Scripts/MapGrid/RangeFinder.cs:44 | LINQ Distinct: the result has no duplicates and every element of the input, keeps only input elements, and keeps the first element first |
| Common.DistinctMembers | Assets/_Scripts/MapGrid/RangeFinder.cs:40 | Distinct keeps exactly the elements of the list |
| Common.Reversed | Assets/_Scripts/MapGrid/PathFinder.cs:82 | List.Reverse: same length, element i is the input's element at the mirrored index |
| Common.IndexOf | Assets/_Scripts/Enemies/EnemyManager.cs:96 | the index of the first occurrence: it holds x and no earlier index does |
| Common.RemoveFirst | Assets/_Scripts/Enemies/EnemyManager.cs:96 | List.Remove: an absent element leaves the list unchanged; otherwise the list is one shorter, the elements before the first occurrence stay at their indices and every later one moves down by one |
| Common.RemoveFirstMultiset | Assets/_Scripts/Enemies/EnemyManager.cs:96 | List.Remove takes exactly one copy of a present element out, and the length drops by one exactly when it was present |
| Common.RemoveAtNoDup | Assets/_Scripts/MapGrid/PathFinder.cs:30 | removing the chosen tile from a duplicate-free open list leaves it duplicate-free, holding every other tile |
| Common.AppendNoDup | Assets/_Scripts/MapGrid/PathFinder.cs:55-58 | appending a tile not yet in a duplicate-free list keeps it duplicate-free |
| Common.NoDupBounded | Assets/_Scripts/MapGrid/PathFinder.cs:24-31 | a duplicate-free list drawn from a finite set is no longer than the set, which bounds the number of A* iterations |
| ArrowTranslator.Ordinal | Assets/_Scripts/MapGrid/ArrowTranslator.cs:12-27 | the enum values run from None = 0 to RightFinished = 12, and only None is 0 |
| ArrowTranslator.OrdinalInjective | Assets/_Scripts/MapGrid/ArrowTranslator.cs:12-27 | distinct directions have distinct values, so a sprite index names one direction |
| ArrowTranslator.PastDirection | Assets/_Scripts/MapGrid/ArrowTranslator.cs:37 | the step that led from the previous tile to the current one (previous plus it is current); (0,0) without a previous tile |
| ArrowTranslator.FutureDirection | Assets/_Scripts/MapGrid/ArrowTranslator.cs:38 | the step that leads from the current tile to the next one (current plus it is next); (0,0) without a next tile |
| ArrowTranslator.CombinedDirection | Assets/_Scripts/MapGrid/ArrowTranslator.cs:39 | on a straight run it is the run's step; a turn or a reversal of unit steps never gives a unit step; it is (0,0) exactly when the two steps cancel out |
| ArrowTranslator.TranslateDirection | Assets/_Scripts/MapGrid/ArrowTranslator.cs:34-119 | the plain arrows Up, Down, Left and Right appear only where a next tile exists, the Finished arrows only where none does, and a tile with neither neighbour gets None |
| ArrowTranslator.FirstTileArrow | Assets/_Scripts/MapGrid/ArrowTranslator.cs:36-56 | with no previous tile the past direction is (0,0), and the first tile shows the straight arrow of the step leaving it |
| ArrowTranslator.LastTileArrow | Assets/_Scripts/MapGrid/ArrowTranslator.cs:101-116 | with no next tile the call is final, and the last tile shows the Finished arrow of the step entering it |
| ArrowTranslator.StraightArrow | Assets/_Scripts/MapGrid/ArrowTranslator.cs:39-56 | when past and future steps are equal, the combined direction is that step and the tile shows Up, Down, Right or Left for it |
| ArrowTranslator.AxisArrow | Assets/_Scripts/MapGrid/ArrowTranslator.cs:41-116 | a combined direction on an axis gives Up/Down/Right/Left when not final and UpFinished/DownFinished/RightFinished/LeftFinished when final |
| ArrowTranslator.TurnArrow | Assets/_Scripts/MapGrid/ArrowTranslator.cs:57-100 | at a right-angle turn the four diagonal branches and their y comparisons amount to one rule: the corner named by future minus past |
| ArrowTranslator.ReversedPathArrow | Assets/_Scripts/MapGrid/ArrowTranslator.cs:39-100 | walking a path the other way gives the same corner at a turn, and the opposite straight arrow on a straight run |
| ArrowTranslator.NoArrow | Assets/_Scripts/MapGrid/ArrowTranslator.cs:118 | every combined direction other than the axis and diagonal vectors gives None |
| ArrowTranslator.DegenerateNoArrow | Assets/_Scripts/MapGrid/ArrowTranslator.cs:36-39 | a tile with neither neighbour (combined (0,0)), or one the path leaves the way it came, gives None |
| Board.OverlayTile.constructor | Assets/_Scripts/MapGrid/OverlayTile.cs:19-21 | a new tile is unblocked, unoccupied, has no character, no predecessor and a hidden arrow |
| Board.OverlayTile.Grid2DLocation | Assets/_Scripts/MapGrid/OverlayTile.cs:25 | the tile's location with the layer dropped: adding back the layer gives gridLocation |
| Board.OverlayTile.SetArrowSprite | Assets/_Scripts/MapGrid/OverlayTile.cs:70-83 | None hides the arrow; any other direction shows it with the sprite at the direction's value, which must index the sprite list |
| Board.OverlayTile.F | Assets/_Scripts/MapGrid/OverlayTile.cs:17 | the A* cost G + H; `PathFinding.SettledCost` states what it comes to on a settled tile |
| Board.OverlayTile.HideTile | Assets/_Scripts/MapGrid/OverlayTile.cs:59-63 | the arrow is hidden, and the sprite is left as it was |
| Board.KeysMatchInjective | Assets/_Scripts/MapGrid/MapManager.cs:44-58 | in a dictionary built with tiles keyed by their own 2-D location, no tile is stored under two keys |
| Board.ValueKey | Assets/_Scripts/MapGrid/MapManager.cs:44-58 | every tile of such a dictionary is found again under its own 2-D location |
| Board.AfterDamage | Assets/_Scripts/Characters/CharacterData.cs:49-56 | health after a hit is never negative; it is 0 exactly when health minus damage is at most 0, and health minus damage otherwise (a negative damage heals, with no cap) |
| Board.DamageMonotone | Assets/_Scripts/Characters/CharacterData.cs:49-56 | more damage never leaves more health |
| Board.TwoHitsAsOne | Assets/_Scripts/Characters/CharacterData.cs:49-56 | two non-negative hits leave the same health as one hit of their sum |
| Board.CharacterData.constructor | Assets/_Scripts/Characters/CharacterData.cs:11-25 | a new unit carries the prefab's stats, stands on no tile, is not destroyed, and holds C#'s field defaults (health 0, not moved, not attacked); `Instantiate` (left out) copies the prefab's serialized values into those public fields |
| Board.CharacterData.Start | Assets/_Scripts/Characters/CharacterData.cs:37-40 | health starts at maxHealth |
| Board.CharacterData.TakeDamage | Assets/_Scripts/Characters/CharacterData.cs:47-60 | health becomes AfterDamage of the old health; on death the unit's tile is marked unoccupied and keeps characterOnTile, and the unit is destroyed; above zero the tile is untouched and the unit stays as it was; nothing else changes |
| Board.CharacterData.OnPlayerTurnChanged | Assets/_Scripts/Characters/CharacterData.cs:62-67 | movedThisTurn and attackedThisTurn become false, for enemies too |
| MapBuilder.Highest | Assets/_Scripts/MapGrid/MapManager.cs:38-48 | the layer the top-down scan settles on: a layer in range holding a tile at (x, y), with no tile on any layer above it; None when no layer in range holds one |
| MapBuilder.HighestExists | Assets/_Scripts/MapGrid/MapManager.cs:48 | a cell gets a layer exactly when some layer in range holds a tile there |
| MapBuilder.CellSkipped | Assets/_Scripts/MapGrid/MapManager.cs:48 | a cell with no tile on this layer, or already keyed, leaves the dictionary correct for the layers scanned so far |
| MapBuilder.CellAdded | Assets/_Scripts/MapGrid/MapManager.cs:48-58 | a new key gets a tile placed on the current layer, the topmost scanned layer with a tile there |
| MapBuilder.RowScanned | Assets/_Scripts/MapGrid/MapManager.cs:42 | x runs from min included to max excluded: the end of a row completes the row |
| MapBuilder.LayerScanned | Assets/_Scripts/MapGrid/MapManager.cs:40 | y runs from min included to max excluded: the end of the last row completes the layer |
| MapBuilder.MapScanned | Assets/_Scripts/MapGrid/MapManager.cs:38 | z runs from max down to min, both included: after the last layer every layer in range has been scanned |
| MapBuilder.MapManager.Start | Assets/_Scripts/MapGrid/MapManager.cs:31-63 | rebuilt from empty: (x, y) is a key exactly when it is in bounds and some layer in range has a tile there; its tile sits on the topmost such layer; every key is its tile's own 2-D location; all tiles are new |
| MapBuilder.MapManager.ScanLayer | Assets/_Scripts/MapGrid/MapManager.cs:40-61 | one layer: the dictionary is correct for every layer down to this one, every existing key keeps its tile, and only new tiles are added |
| MapBuilder.MapManager.ScanRow | Assets/_Scripts/MapGrid/MapManager.cs:42-60 | one row: the dictionary is correct for this row on this layer, every existing key keeps its tile, and only new tiles are added |
| MapBuilder.MapManager.ScanCell | Assets/_Scripts/MapGrid/MapManager.cs:44-59 | one cell: a new tile at (x, y, z) is added only when the layer holds a tile there and the key is absent; every existing key keeps its tile |
| PathFinding.GetManhattanDistance | Assets/_Scripts/MapGrid/PathFinder.cs:92-96 | \|dx\| + \|dy\|, zero exactly when the 2-D locations are equal |
| PathFinding.ManhattanIsMetric | Assets/_Scripts/MapGrid/PathFinder.cs:92-96 | the distance is symmetric and satisfies the triangle inequality |
| PathFinding.NeighbourLocations | Assets/_Scripts/MapGrid/PathFinder.cs:109-147 | four distinct locations, exactly those one orthogonal step away (top, bottom, right, left) |
| PathFinding.LookUpAll | Assets/_Scripts/MapGrid/PathFinder.cs:103-150 | no more tiles than keys, each of them a tile of the dictionary |
| PathFinding.GetNeighbourTiles | Assets/_Scripts/MapGrid/PathFinder.cs:103-150 | at most four tiles, each of them a tile of the dictionary |
| PathFinding.LookUpAllSound | Assets/_Scripts/MapGrid/PathFinder.cs:103-150 | every tile listed is the dictionary's tile under one of the looked-up keys |
| PathFinding.LookUpAllComplete | Assets/_Scripts/MapGrid/PathFinder.cs:103-150 | every looked-up key present in the dictionary contributes its tile |
| PathFinding.LookUpAllNoDup | Assets/_Scripts/MapGrid/PathFinder.cs:103-150 | distinct keys give a list without duplicates |
| PathFinding.NeighbourTilesListed | Assets/_Scripts/MapGrid/PathFinder.cs:103-150 | the neighbour list holds exactly the dictionary's tiles one orthogonal step away |
| PathFinding.NeighbourTilesNoDup | Assets/_Scripts/MapGrid/PathFinder.cs:103-150 | the neighbour list has no duplicates |
| PathFinding.SettledCost | Assets/_Scripts/MapGrid/OverlayTile.cs:15-17 | a tile the search has settled has F = G + H equal to its distance from start plus its distance to end, hence never below the distance from start to end |
| PathFinding.Skipped | Assets/_Scripts/MapGrid/PathFinder.cs:44 | the neighbour is passed over when it is blocked, already closed, or more than one layer above or below the current tile |
| PathFinding.WalkReaches | Assets/_Scripts/MapGrid/PathFinder.cs:44 | a walk of legal moves witnesses that its last tile is reachable |
| PathFinding.FirstLowestF | Assets/_Scripts/MapGrid/PathFinder.cs:27 | OrderBy(F).First(): an index of least F, with every earlier tile of strictly greater F (OrderBy is stable) |
| PathFinding.CloseTile | Assets/_Scripts/MapGrid/PathFinder.cs:30-31 | moving the chosen tile from the open to the closed list keeps the closed list a chain back to start |
| PathFinding.ExtendChain | Assets/_Scripts/MapGrid/PathFinder.cs:51-58 | a tile whose predecessor is closed extends the closed chain |
| PathFinding.VisitNeighbour | Assets/_Scripts/MapGrid/PathFinder.cs:42-58 | a blocked, closed, or too-steep neighbour is skipped: the open list and its fields stay as they were; otherwise its G and H become its Manhattan distances from start and to end, its previousTile the current tile, and it is appended to the open list unless already there; the search stays consistent |
| PathFinding.NeighboursVisited | Assets/_Scripts/MapGrid/PathFinder.cs:40-59 | once all neighbours are visited, every legal move out of a closed tile leads to an open or closed tile |
| PathFinding.AppendInOrder | Assets/_Scripts/MapGrid/PathFinder.cs:40-58 | visiting the next neighbour appends at most that neighbour, after every neighbour appended before it, so the appended tiles keep the neighbour list's order |
| PathFinding.UpdateNeighbours | Assets/_Scripts/MapGrid/PathFinder.cs:38-59 | the search invariant is restored; the old open list is a prefix of the new one, which adds only neighbours that are not skipped; every such neighbour is open, has the current tile as previousTile and Manhattan G and H; the appended tiles follow the order of the neighbour list (top, bottom, right, left), which feeds the stable lowest-F tie-break; every other tile of the map keeps G, H and previousTile |
| PathFinding.ChainBacklinks | Assets/_Scripts/MapGrid/PathFinder.cs:51-58 | every closed tile after start has a predecessor closed before it |
| PathFinding.BacktrackReversed | Assets/_Scripts/MapGrid/PathFinder.cs:76-82 | the reversed backtrack is empty exactly when start is end, ends at end, is linked from start, and has no duplicates |
| PathFinding.WalksStayInside | Assets/_Scripts/MapGrid/PathFinder.cs:24-61 | a walk from inside a set closed under legal moves never leaves it |
| PathFinding.ExhaustedSearch | Assets/_Scripts/MapGrid/PathFinder.cs:24-61 | an open list that runs empty without closing end means end is not reachable |
| PathFinding.FinishedListIsWalk | Assets/_Scripts/MapGrid/PathFinder.cs:70-85 | the backtracked list is a walk of legal moves ending at end, and its tiles carry their Manhattan G and H |
| PathFinding.GetFinishedList | Assets/_Scripts/MapGrid/PathFinder.cs:70-85 | the path followed back from end and reversed: empty exactly when start is end, ends at end, leaves out start, no duplicates, linked by previousTile |
| PathFinding.FindPath | Assets/_Scripts/MapGrid/PathFinder.cs:18-62 | the result is empty exactly when start is end or end is unreachable; otherwise a walk of unblocked orthogonal steps changing z by at most 1, ending at end, without start or duplicates, linked by previousTile, whose tiles have G and H as Manhattan distances from start and to end |
| RangeFinding.ExpandPrefix | Assets/_Scripts/MapGrid/RangeFinder.cs:34-37 | one more frontier tile appends its surrounding tiles |
| RangeFinding.ExpandMember | Assets/_Scripts/MapGrid/RangeFinder.cs:34-37 | a tile is in the expansion exactly when it surrounds some frontier tile |
| RangeFinding.ExpandMembers | Assets/_Scripts/MapGrid/RangeFinder.cs:34-37 | the same, for every tile |
| RangeFinding.Frontier | Assets/_Scripts/MapGrid/RangeFinder.cs:27-40 | tileForPreviousStep after k steps: the start alone, then the distinct tiles around the previous frontier; it never holds a tile twice |
| RangeFinding.Collected | Assets/_Scripts/MapGrid/RangeFinder.cs:21-39 | inRangeTiles after k steps, duplicates kept: every tile of the current frontier has already been collected |
| RangeFinding.FrontierIsExactlyK | Assets/_Scripts/MapGrid/RangeFinder.cs:34-40 | the k-th frontier holds exactly the tiles at the end of a k-step walk: visited tiles are not excluded |
| RangeFinding.CollectedIsWithin | Assets/_Scripts/MapGrid/RangeFinder.cs:30-42 | the collected list holds exactly the tiles within k steps |
| RangeFinding.NextStep | Assets/_Scripts/MapGrid/RangeFinder.cs:39-41 | one iteration appends the expansion and makes its distinct tiles the new frontier |
| RangeFinding.CollectSurrounding | Assets/_Scripts/MapGrid/RangeFinder.cs:34-37 | the surrounding tiles of every frontier tile, appended in order |
| RangeFinding.GetTilesInRange | Assets/_Scripts/MapGrid/RangeFinder.cs:18-45 | the location must be a key; the result is the distinct list of the tiles collected over the range's steps |
| RangeFinding.CollectedStartsAtStart | Assets/_Scripts/MapGrid/RangeFinder.cs:20-25 | the collected list is never empty and starts with the starting tile |
| RangeFinding.InRangeProperties | Assets/_Scripts/MapGrid/RangeFinder.cs:18-45 | the result starts with the starting tile, has no duplicates, is only the starting tile when range is not positive, and holds exactly the tiles reachable in at most range steps |
| CharacterSpawning.LastPlacedOn | Assets/_Scripts/Characters/CharacterSpawnManager.cs:15-23 | the last prefab, in array order, that lands on a tile: it lands there and no later one does; None when none does |
| CharacterSpawning.DistinctSpawnsKeepTheirTiles | Assets/_Scripts/Characters/CharacterSpawnManager.cs:15-23 | with distinct spawning locations, every placed character is the one its tile holds |
| CharacterSpawning.SharedSpawnLocation | Assets/_Scripts/Characters/CharacterSpawnManager.cs:19-21 | occupancy is not checked: a later character on the same location replaces the earlier one on the tile |
| CharacterSpawning.CharacterSpawnManager.Start | Assets/_Scripts/Characters/CharacterSpawnManager.cs:13-24 | one new character per prefab, in order, with the prefab's stats; its activeTile is the map's tile at its spawning location or null; each tile holds the last character placed on it and is occupied; tiles nobody lands on are unchanged |
| CharacterSpawning.CharacterSpawnManager.PositionCharacterOnTile | Assets/_Scripts/Characters/CharacterSpawnManager.cs:32-39 | the character's activeTile is the tile, the tile's characterOnTile is the character, and the tile is occupied; nothing else changes |
| Enemies.SquaredDistance | Assets/_Scripts/Characters/EnemyData.cs:60 | the squared Euclidean distance is zero exactly between equal cells |
| Enemies.PlayerCharacters | Assets/_Scripts/Characters/EnemyData.cs:38-44 | no longer than the occupants, and only occupants that are player units |
| Enemies.PlayerCharactersMembers | Assets/_Scripts/Characters/EnemyData.cs:38-44 | the appended characters are exactly the non-null, non-enemy occupants |
| Enemies.PlayerCharactersPrefix | Assets/_Scripts/Characters/EnemyData.cs:40-43 | looking at one more tile appends its occupant exactly when it is a player unit |
| Enemies.EnemyData.Start | Assets/_Scripts/Characters/EnemyData.cs:16-20 | the candidate list starts empty |
| Enemies.EnemyData.FindCharacterTarget | Assets/_Scripts/Characters/EnemyData.cs:36-47 | the list grows by exactly the live player units on the map, in order, and is never cleared; the target becomes the candidate at some index i of least distance, every candidate before i being strictly farther; with no candidate the call fails and the target is kept |
| Enemies.EnemyData.Distance | Assets/_Scripts/Characters/EnemyData.cs:60 | the distance from this enemy's tile to a candidate's is zero exactly when they stand on the same cell |
| Enemies.EnemyData.ReturnClosestCharacter | Assets/_Scripts/Characters/EnemyData.cs:54-68 | the list must be non-empty; the result is an element of least distance to this enemy, and every earlier element is strictly farther (ties go to the lowest index) |
| EnemyManagement.RemovalEvents | Assets/_Scripts/Enemies/EnemyManager.cs:94-101 | removing an enemy from a list completes the level exactly when that list was empty or held only that enemy; otherwise nothing is fired |
| EnemyManagement.EnemyManager.constructor | Assets/_Scripts/Enemies/EnemyManager.cs:11 | the index starts at 0 with nothing logged |
| EnemyManagement.EnemyManager.PerformNextAction | Assets/_Scripts/Enemies/EnemyManager.cs:66-78 | below the count, the current enemy acts and the index stays; at the count, the index resets to 0 and the turn ends once; above it, nothing changes |
| EnemyManagement.EnemyManager.StartEnemyTurnActions | Assets/_Scripts/Enemies/EnemyManager.cs:57-60 | ignores the turn number and does what PerformNextAction does |
| EnemyManagement.EnemyManager.IncrementEnemyIndex | Assets/_Scripts/Enemies/EnemyManager.cs:84-87 | the index grows by exactly 1 |
| EnemyManagement.EnemyManager.RemoveEnemyFromList | Assets/_Scripts/Enemies/EnemyManager.cs:94-101 | the first occurrence is removed and the rest keep their order; the level is completed exactly when the list was empty or held only that enemy |
| Turns.TurnEventFor | Assets/_Scripts/TurnManager.cs:39-49 | the event carries the turn it starts |
| Turns.EnemyTurnsAreEven | Assets/_Scripts/TurnManager.cs:41-48 | the enemy event is fired exactly on even turns, the player event on odd ones |
| Turns.TurnsAlternate | Assets/_Scripts/TurnManager.cs:41-58 | the turn after an enemy turn is a player turn and the other way round |
| Turns.FirstTurnIsPlayer | Assets/_Scripts/TurnManager.cs:17-21 | the first turn, 1, fires the player event and starts a turn log |
| Turns.TurnLogExtends | Assets/_Scripts/TurnManager.cs:55-59 | ending a turn extends a consistent turn log |
| Turns.TurnsIncrease | Assets/_Scripts/TurnManager.cs:57 | in a turn log each turn is one more than the one before |
| Turns.TurnLogAlternates | Assets/_Scripts/TurnManager.cs:41-58 | in a turn log the turns strictly increase and enemy and player events alternate |
| Turns.TurnManager.constructor | Assets/_Scripts/TurnManager.cs:17 | the counter starts at 1 with no event fired |
| Turns.TurnManager.Start | Assets/_Scripts/TurnManager.cs:19-24 | starts the current turn; from the initial state that fires exactly the player event for turn 1 |
| Turns.TurnManager.StartTurn | Assets/_Scripts/TurnManager.cs:39-49 | fires exactly one event, the one its turn's parity calls for |
| Turns.TurnManager.EndTurn | Assets/_Scripts/TurnManager.cs:55-59 | the counter grows by exactly 1, that turn is started, and a consistent turn log stays consistent |
| LegacyCharacter.CharacterData.constructor | Assets/_Scripts/CharacterData.cs:5-14 | a new unit carries the prefab's stats, stands on no tile, and holds C#'s field default health 0; `Instantiate` (left out) copies the prefab's serialized value into that public field |
| LegacyCharacter.CharacterData.Start | Assets/_Scripts/CharacterData.cs:16-19 | health starts at maxHealth |
| LegacyCharacter.CharacterData.TakeDamage | Assets/_Scripts/CharacterData.cs:21-31 | health becomes old health minus damage, clamped to exactly 0 at or below zero; nothing but the health changes |

## Left out

- Unity lifecycle and engine calls are not modelled: `Awake`, `OnEnable`/`OnDisable` subscriptions, `Update` input polling, `Instantiate`/`Destroy`, `GetComponent`, transforms, world positions, sorting orders, sprite colours, `ShowTile`, `ShowTileRed` and the `Debug.Log` calls (Assets/_Scripts/Characters/CharacterData.cs:50-51, Assets/_Scripts/CharacterData.cs:29, Assets/_Scripts/Characters/EnemyData.cs:27).
- Event handlers are not run. Fired events are appended to a log: `TurnManager.events`, `EnemyManager.log`. The subscribed handlers (`CharacterData.OnPlayerTurnChanged`, `EnemyManager.StartEnemyTurnActions`) are separate methods a caller would invoke.
- `MapManager.GetSurroundingTiles` is not part of this model. `RangeFinding.GetTilesInRange` takes it as a parameter, a function from a location to a tile list.
- `Tilemap.HasTile` and the tile map's cell bounds are parameters of `MapBuilder.MapManager.Start`.
- MapBuilder.MapManager.Start: does not restate the default fields of the tiles it makes; `Board.OverlayTile.constructor` states them.
- The overlay prefab's sprite list is a parameter of `MapBuilder.MapManager.Start`.
- `OverlayTile.gridLocation` is a settable property in the game. It is modelled as a constant, because it is set once, right after the tile is made.
- The tile's own visibility (its sprite alpha) is not modelled; only the arrow's visibility and sprite are.
- Loop bodies are separate methods so that each step is proved on its own:
  - `PathFinding.UpdateNeighbours` and `PathFinding.VisitNeighbour` (FindPath's foreach over neighbours);
  - `RangeFinding.CollectSurrounding` (GetTilesInRange's foreach);
  - `MapBuilder.MapManager.ScanLayer`, `ScanRow` and `ScanCell` (MapManager.Start's nested loops).
- PathFinding.GetFinishedList: takes the closed list and parent indices as extra ghost parameters. They show that following previousTile from end reaches start.
- PathFinding.FindPath: does not promise the shortest path that the comment at Assets/_Scripts/MapGrid/PathFinder.cs:15-16 announces. The code sets G to the straight Manhattan distance from start rather than the cost of the path walked so far, overwrites previousTile on every visit whatever the cost, and never reopens a closed tile, so around blocked tiles or layer changes the path it returns can be longer than the shortest one. The model proves what the code does ensure: a legal walk to end exactly when end is reachable.
- `Vector2Int.Distance` is a float Euclidean distance. `Enemies.EnemyData.Distance` uses the integer squared distance instead. It orders cells the same way, but float rounding is not modelled.
- The dictionary iteration order of `map.Values` is not modelled. Enemies.EnemyData.FindCharacterTarget: takes the `characterOnTile` of each tile, in that order, as its argument.
- Enemies.EnemyData.FindCharacterTarget: the game throws when no candidate is found, after the appends. This is modelled as a `false` result with the target kept. The target is the candidate unit itself, not its game object.
- `EnemyData.PerformAction` is not part of this model. Acting is logged as `EnemyActed`.
- `EnemyManager.GetAllChildObjects` walks the scene hierarchy. The enemies are given to the constructor as a sequence.
- The `TurnManager` is given to the `EnemyManager` constructor, not looked up by name.
- The level-completed canvas appears after `WaitForSeconds(0.5f)`. This is modelled as an instantaneous `LevelCompleted` log entry.
- EnemyManagement.EnemyManager.PerformNextAction: requires a non-negative index, where the game's list indexer would throw.
- Turns.TurnManager.EndTurn: `currentTurn` is an unbounded integer. C#'s 32-bit `int` would wrap after 2^31 - 1 turns.
- EnemyManagement.EnemyManager.IncrementEnemyIndex: `currentIndex` is an unbounded integer, with no 32-bit wrap-around.
- Inspector-configured stats of both `CharacterData` classes (attack, defense, range, maxHealth and the rest) are constants. Only the fields the code assigns are variables.
- The death events `CharacterData.OnEnemyDeath` and `OnCharacterDeath` are not part of this model. `TakeDamage` fires nothing, and `RemoveEnemyFromList` is called directly.
- PathFinding.Skipped: the test at Assets/_Scripts/MapGrid/PathFinder.cs:44 reads `neighbour.IsBlocked`, which `OverlayTile` does not declare; it is read as the field `isBlocked` (Assets/_Scripts/MapGrid/OverlayTile.cs:19). An `IsBlocked` property that also counted occupied tiles would make `Step`, `Reachable` and the FindPath contracts built on them differ for occupied tiles.
- Enemies.EnemyData.Start: `EnemyData` declares its own private `Start` (Assets/_Scripts/Characters/EnemyData.cs:16-20), and Unity calls that one on an enemy instead of `CharacterData.Start` (Assets/_Scripts/Characters/CharacterData.cs:37-40). Nothing in the code therefore sets an enemy's health to `maxHealth`; the model does not call `Board.CharacterData.Start` for an enemy's unit either, and an enemy's health is whatever `Instantiate` copied from its prefab.
- Board.CharacterData.TakeDamage: requires the unit to stand on a tile when the hit is fatal, because the game dereferences `activeTile` then.
- Board.AfterDamage: health and damage are unbounded integers. C#'s 32-bit `int` subtraction wraps around, so in the game a very large negative damage (a heal) can wrap health below zero, and the unit then dies instead of healing. This applies to both `TakeDamage` methods too.
- `Destroy(gameObject)` is modelled as the `destroyed` flag of `Board.CharacterData`. Unity's overloaded `==` then reports the unit as null. Dafny references have no such overload.
- Enemies.EnemyData.FindCharacterTarget: requires the occupants to hold null in place of a destroyed unit, as Unity's `==` sees them. Candidates already in the list are not checked, so a unit destroyed after an earlier call can still be chosen, as in the game.
- Enemies.EnemyData.FindCharacterTarget: requires this enemy and every candidate to stand on a tile, because the distance dereferences both tiles.
- RangeFinding.GetTilesInRange: requires the location to be a key of the map, where the game's dictionary indexer throws `KeyNotFoundException` (Assets/_Scripts/MapGrid/RangeFinder.cs:20).
- Board.OverlayTile.SetArrowSprite: requires a shown direction's value to index the sprite list, where the game's list indexer throws `ArgumentOutOfRangeException` (Assets/_Scripts/MapGrid/OverlayTile.cs:80).
