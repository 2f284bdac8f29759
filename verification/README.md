# Pixel castle maze core, in Dafny

This project models the core of `game.py`, a turn-based text maze game. A
player walks a grid, collects treasures, avoids traps and reaches the exit
before health runs out. The model covers four pieces of the game:

- **Reachability search** (`find_connected_areas`, module `Reach`). This is a
  breadth-first search over 4-neighbours from a start cell. It steps onto any
  non-wall cell and collects the path cells it meets. It is proved to
  terminate, with the number of unvisited cells and then the queue length
  as the measure. It is proved to return exactly the in-bounds path cells
  joined to the start by a chain of non-wall cells, each cell once.
- **Maze construction** (`create_maze`, module `Maze`). This covers:
  - the size arithmetic;
  - the random carving, followed by the forced frame corridor;
  - the start and exit markers;
  - the placement of treasures and traps on cells from the search result.

  The randomness is injected:
  - an oracle `open(x, y)` stands for `random.random() > wall_density`;
  - lists of draws stand for `random.sample`.

  `SampleCanDrawAny` shows that every selection `random.sample` can make is
  produced by some list of draws.
- **Player lookup** (`find_player`, module `Turns`). This is the row-major
  scan for the first player cell.
- **Turn engine** (`process_movement_sequence`, module `Turns`). It applies a
  batch of move tokens to the grid in place and to the treasure, health and
  move counters. `Step` and `Run` state the batch as a function. The
  in-place method is proved equal to that function. Lemmas about `Run` give
  these invariants:
  - one player marker;
  - walls unchanged;
  - treasures conserved;
  - the exit guarded by the treasure quota;
  - monotone counters.

The grid is an `array2<Cell>` that the methods update in place, as the
source updates its list of rows. Contracts speak of its value, a
`seq<seq<Cell>>`, through the function `View`. The source's display strings
become the enumeration `Cell = Wall | Path | Player | Exit | Treasure | Trap`.
The exit is its own marker (`'[]'` in the source), not a wall.

Two behaviours of the code that are easy to misread:

- **A lethal trap.** The batch ends at game.py:201-202, before the move at
  lines 216-218. The player therefore stays where they were. The health
  loss and the counted move remain. The model follows the code
  (`LethalTrapEndsBatch`).
- **The filter at game.py:108-109** never removes anything. The search
  collects only path cells. The start holds the player and the exit holds
  its own marker, so neither is ever in the search result. `CreateMaze`
  therefore states its counts in terms of the search result itself.

## Model

| member | source | states |
|---|---|---|
| `Grid.SetCell` | game.py:216-217 | Writing one cell of the grid in place changes that cell to the given value and no other. |
| `Grid.Neighbors` | game.py:63 | The four directions give four different cells, each differing from the given cell by one in exactly one coordinate. |
| `Reach.EnqueueNeighbors` | game.py:63-68 | The old queue is kept as a prefix. The new entries are unvisited, in-bounds, non-wall neighbours of the cell. Every such neighbour ends up queued. |
| `Reach.VisitNext` | game.py:54-68 | One turn of the search keeps the search invariant: everything visited or queued is reachable; neighbours of visited cells are visited or queued; the collected cells are exactly the visited path cells, each once. The number of unvisited cells drops, or the queue shrinks. |
| `Reach.VisitKeepsState` | game.py:58-68 | Marking the popped cell visited, collecting it if it is a path cell and queueing its open neighbours preserves the search invariant. |
| `Reach.FinishedSearch` | game.py:53-70 | Once the queue is empty, the collected cells are exactly the in-bounds path cells reachable from the start, each listed once. |
| `Reach.FindConnectedAreas` | game.py:47-70 | The search terminates. It returns, without repeats, exactly the in-bounds path cells joined to the start by 4-neighbour steps over non-wall cells. It does not modify the grid. |
| `Maze.SizeIncrease` | game.py:76 | The size increase never exceeds 5. It is 5 from level 15 on, and never negative for a non-negative level. |
| `Maze.MazeWidth` | game.py:75-77 | The width is at most 20. It is exactly 20 from level 15 on, and at least 15 for a non-negative level. |
| `Maze.MazeHeight` | game.py:78 | The height is at most 15. It is 15 from level 15 on, at least 10 for a non-negative level, and always the width minus 5. |
| `Maze.SizeMonotone` | game.py:75-78 | Width and height never decrease as the level rises. |
| `Maze.Carving` | game.py:80-98 | The carved grid is h rows of w cells. Each cell is wall on the border, path on rows 1 and h-2 and columns 1 and w-2, and otherwise path exactly where the oracle opened it. |
| `Maze.CarveGrid` | game.py:80-98 | The grid built in place by the all-wall allocation, the random loop and the two corridor loops equals `Carving`. |
| `Maze.Layout` | game.py:101-102 | The level's grid has the player at (1, 1), the exit at (w-2, h-2), and the carved cell everywhere else. |
| `Maze.LayoutGrid` | game.py:80-102 | The grid built in place up to the two marker writes equals `Layout`. |
| `Maze.Without` | game.py:108-109 | The filtered list holds exactly the elements other than the start and the exit, and has no repeats when the input has none. It is the input itself when neither occurs. |
| `Maze.RemoveFirst` | game.py:122 | `list.remove` shortens the list by one. On a list without repeats it removes exactly the given element. |
| `Maze.Sample` | game.py:117 | The sample has k elements, all drawn from the pool, and is repeat-free when the pool is. |
| `Maze.SampleCanDrawAny` | game.py:117 | Every repeat-free choice of k pool elements, in any order, is the sample for some list of draws. |
| `Maze.Furnish` | game.py:115-132 | The furnished grid has the shape of its base. A cell holds a trap if it was trapped, else a treasure if it was picked, else the base cell. |
| `Maze.PlaceTreasures` | game.py:115-122 | The treasure loop writes a treasure at each pick. It leaves available exactly the positions not picked, still without repeats. |
| `Maze.PlaceTraps` | game.py:128-132 | The trap loop writes a trap at each pick over the treasured grid. |
| `Maze.PlaceItems` | game.py:111-132 | The quota is `min(5 + level, len(available) - 3)`. The treasures are the sample the draws select, and exactly the quota of them when positive, otherwise none. The traps are `min(3 + level, len(remaining))` positions when `3 + level` is positive, otherwise none, all available and off the treasures. The grid is the base with both written over it. |
| `Maze.CreateMaze` | game.py:72-134 | Covers the whole generator: the size formulas; the search result as exactly the start's reachable path cells in the laid-out grid; `treasures_needed = min(5 + level, len(accessible) - 3)`. Treasures are a sample of the search result. Traps are drawn from it, none on a treasure. No item is on the start or the exit. Exactly `treasures_needed` treasures are placed when positive, otherwise none. `min(3 + level, len(remaining))` traps are placed when `3 + level` is positive, otherwise none. The final grid is the layout with those items written over it. |
| `Maze.FurnishedMaze` | game.py:80-102 | In every generated maze: the border is wall; the player is alone at (1, 1); the exit is at (w-2, h-2) and no other cell holds an exit; treasure cells and trap cells are exactly the placed positions. |
| `Maze.FrameOpen` | game.py:92-98 | Row 1 and column w-2, from (1, 1) to the exit, hold no wall, whatever the oracle and the placement did. |
| `Maze.ExitReachable` | game.py:92-102 | The exit is reachable from the start over non-wall cells in every generated maze. |
| `Maze.TreasuresOnBoard` | game.py:115-132 | A generated maze holds exactly as many treasure cells as treasures were placed. |
| `Turns.FindPlayer` | game.py:136-142 | Returns the first player cell in row-major order. Returns nothing exactly when no cell holds the player. |
| `Turns.FirstPlayerUnique` | game.py:138-141 | The first player cell of a row-major scan is unique. |
| `Turns.Toward` | game.py:178-181 | W, S, A and D each aim at one of the four neighbours of the player. |
| `Turns.Step` | game.py:176-230 | One token keeps the board's shape and the player in bounds. The player stays or moves to a neighbour. Found rises by at most one, health never rises, and moves rise by at most one. Every treasure found costs a move. |
| `Turns.Run` | game.py:175-232 | A batch keeps the board's shape and the player's position in bounds. |
| `Turns.MoveTo` | game.py:215-218 | Moving puts the player at the target, keeps the board's shape and leaves all three counters alone. |
| `Turns.MovePlayer` | game.py:215-218 | The two writes leave the old cell as path and the target holding the player. |
| `Turns.ApplyToken` | game.py:176-230 | One pass of the loop on the grid in place equals `Step`. The loop breaks exactly when `Step` ends the batch. |
| `Turns.ProcessMovementSequence` | game.py:171-232 | A first player cell exists. Starting from it, the grid after the call and the returned found, health and moves equal `Run` over the whole token string. |
| `Turns.MoveToCells` | game.py:215-218 | A move turns the old cell to path and the target to the player, and changes no other cell. |
| `Turns.StepShape` | game.py:186-218 | A step either leaves board and position alone, or moves the player onto the open neighbour aimed at. It reaches the exit only by ending the batch with the quota met. |
| `Turns.StepKeepsOnePlayer` | game.py:210-218 | After a step, exactly one cell holds the player, and it is the player's position. |
| `Turns.RunKeepsOnePlayer` | game.py:175-230 | A batch keeps exactly one player marker, at the player's position. |
| `Turns.RunCounters` | game.py:189-198 | Across a batch: found never decreases; health never rises; moves rise by at most the number of tokens; found rises by no more than moves. |
| `Turns.StepMoves` | game.py:186-189 | A token counts exactly one move when it is a move onto an in-bounds non-wall cell, and none otherwise. |
| `Turns.AcceptedSteps` | game.py:175-189 | The number of accepted steps in a batch, up to the token that ends it, is at most the number of tokens. |
| `Turns.RunMoves` | game.py:175-230 | The moves counter rises across a batch by exactly the number of accepted steps. |
| `Turns.RunKeepsWalls` | game.py:186-218 | A batch neither adds nor removes a wall. |
| `Turns.RunKeepsReachable` | game.py:175-230 | One cell reaches another over non-wall cells after a batch exactly when it did before. |
| `Turns.StepConservesTreasure` | game.py:192-218 | Found plus the treasures left on the board is the same after a step. |
| `Turns.RunConservesTreasure` | game.py:175-230 | Found plus the treasures left on the board is the same after a batch. |
| `Turns.ExitNeedsTreasures` | game.py:204-213 | A batch ends with the player on the exit only if found has reached the quota. |
| `Turns.IgnoredToken` | game.py:178-183 | A token other than W, A, S or D changes nothing, and the batch goes on. |
| `Turns.BlockedMoveEndsBatch` | game.py:222-230 | A move out of the grid or into a wall costs exactly 5 health, changes nothing else and ends the batch. |
| `Turns.LethalTrapEndsBatch` | game.py:197-202 | A trap that leaves no health counts the move, costs 15 health and ends the batch. The player and the board stay unchanged. |
| `Turns.ExitBlockedEndsBatch` | game.py:204-207 | Walking into the exit short of the quota counts the move and ends the batch. The player does not move. |
| `Turns.ExitReachedEndsBatch` | game.py:208-213 | Walking into the exit with the quota met counts the move, puts the player on the exit and ends the batch. |
| `Turns.PathStep` | game.py:186-218 | Walking onto a plain path cell counts the move and moves the player, and the batch goes on with the next token. |
| `Turns.SurvivedTrap` | game.py:197-218 | A trap that leaves health above 0 counts the move, costs 15 health and moves the player onto it, and the batch goes on. |
| `Turns.TreasureCollected` | game.py:189-218 | Walking onto a treasure counts the move, adds one treasure found and moves the player, and the batch goes on. |
| `Turns.Won` | game.py:261-262 | The win test holds only when found has reached the quota and the player stands at (w-2, h-2). |
| `Turns.ReachingExitWins` | game.py:260-262 | After a batch, the player is on the exit exactly when the game loop's win test holds. |
| `Turns.Score` | game.py:264 | The move bonus is at most 100 for a non-negative move count, and never negative up to 100 moves; the score is positive with health left, at most 100 moves and a non-negative level. |
| `Turns.BatchNeverRaisesScore` | game.py:264 | A batch never raises the score a win would earn. |
| `Turns.FreshLevelBatch` | game.py:243-262 | Covers a level as generated, after any batch from the start: one player; walls unchanged; found plus the treasures on the board equals the number placed; on the exit exactly when won; no treasure left when the quota equals the number placed and the level is won. |

## Left out

- Console output, sounds and delays are not modelled. This covers `print`, `play_sound`, `time.sleep`, `clear_screen`, `show_title` and `display_game` (game.py:16-45, 144-169). They are I/O only.
- The interactive `main_game` loop is not modelled: `input()`, quit and restart, and the level, game and score counters (game.py:234-308). Only its win test (`Won`) and score formula (`Score`) are lifted out, at game.py:261-262 and 264.
- The floating-point wall density and `random.random()` are not modelled (game.py:83, 88). The oracle `open` decides each interior cell instead.
- The uniform distribution of `random.sample` is not modelled (game.py:117, 129). `Sample` is driven by a list of draws. `SampleCanDrawAny` shows that every outcome is possible, not how likely each is.
- The display strings of `PIXEL` are not modelled (game.py:6-14). The enumeration `Cell` replaces them.
- The local counters `treasure_count` and `trap_count` are not modelled (game.py:112, 120, 125, 132). They are never read.
- CreateMaze: requires a height of at least 3, that is, a level of at least -21. For lower levels the source either fails on an index or lets the corridor writes overwrite the border. The game itself starts at level 1.
- CarveGrid: requires both sides to be at least 3, for the same reason.
- ProcessMovementSequence: requires a player cell on the grid, because the source fails unpacking `None` at game.py:173. Its unused `level` parameter is dropped.
- ProcessMovementSequence: the multiple-player case is covered only through the first player found. The game always has exactly one player (`FurnishedMaze`, `RunKeepsOnePlayer`).
