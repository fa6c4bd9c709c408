# Maze level generator and entity movement, in Dafny

This project models the level builder of a tile-based dungeon game and the movement logic its
player and enemies share.

The **maze generator** is a class that owns a column-major grid `maze[x][y]` of `width` by `height`
tiles. It has two maze generators; each allocates a fresh grid, keeps it as the class's grid and
returns it:
- **Random fill.** Border tiles are openings or walls; interior tiles are walls or floor; the
  right-edge middle tile is always an opening.
- **Recursive backtracker.** The grid starts as all walls. A carve from (1, 1) makes odd/odd cells
  and the tiles between them floor. Fixed overrides then write the entrance at (0, m) and the exit
  at (width-2, m), where m = height / 2. Last, the last row and the last column are blanked.

To build a level, the generator always runs the backtracker and then scans the inside floor tiles
column by column. It puts the player on the first listed floor tile nearest (1, m), the tile just
inside the entrance, and the door on the first listed one nearest the exit (width-2, m). Then it
asks for one enemy on a random floor tile that is neither.

The **movable entity** keeps a target tile beside its position. It ignores controller commands
while it is moving. A step command moves the target one tile and marks the entity as moving. A turn
command rotates the facing through a fixed four-direction order. Once the entity is within one
step of its target, it snaps onto the target and stops moving.

All randomness is a parameter, so every property holds for every outcome of the random source:
- `draw` gives the 10% border openings and the wall-density draw of the random fill;
- `shade` picks among the interior wall variants 5, 6 and 7;
- `choose` gives the shuffled move order of each carved cell;
- `pick` gives the splice index of each round of the enemy draw, reduced modulo the number of
  candidates left.

Each of these draws happens at most once per tile, cell or round in one run. So indexing the draws
by tile, cell or round loses no outcome.

The model keeps the behaviour of the code as written:
- the exit is at column width-2, not on the border;
- the last row and last column are blanked after the carve;
- `generateLevel`'s local configuration always selects the backtracker and, for its size, uses
  the generator's own `width` and `height`;
- exactly one enemy is requested;
- the player and the door can stand on the same tile: on a backtrack maze of at least 4 by 3 the
  player is on (1, m) and the door on (width-3, m), and these are one tile exactly when width is 4.

Files:
- `levels.dfy`: the shared records (tile, entity, level) and enumerations.
- `grid.dfy`: grid geometry: moves, cells, scan order, and the path and coverage facts the carve
  proofs use.
- `carve.dfy`: the backtracker as a pure function of its inputs (`CarveFrom`), and what it promises.
- `placement.dfy`: the exclusion filter, the nearest-tile choice and the selection-loop bookkeeping.
- `maze_generator.dfy`: the `MazeGenerator` class. Its in-place methods are proved against the pure
  functions.
- `moveable_entity.dfy`: the command state machine and the `MoveableEntity` class.

## Model

| member | source | states |
|---|---|---|
| MazeGeneration.MazeGenerator.constructor | assets/Script/Map/MazeGenerator.ts:17-21 | the generator takes the configured width and height and starts with an empty grid |
| MazeGeneration.MazeGenerator.CreateWallTile | assets/Script/Map/MazeGenerator.ts:124-135 | a wall tile is never floor and never an opening; its image is one of 5, 6, 7, 9, 13, 14, 15, 16; away from columns 0 and width-2 and rows 0 and height-2 it is the shaded column wall |
| MazeGeneration.MazeGenerator.CreateFloorTile | assets/Script/Map/MazeGenerator.ts:137-139 | the floor tile is floor with image 1 |
| MazeGeneration.MazeGenerator.OnBorder | assets/Script/Map/MazeGenerator.ts:31 | the border test of the random fill: first or last column, or first or last row |
| MazeGeneration.MazeGenerator.RandomTile | assets/Script/Map/MazeGenerator.ts:27-47 | a border tile of the random fill is an opening or a wall, and an interior tile is floor or a wall |
| MazeGeneration.MazeGenerator.GenerateRandomMaze | assets/Script/Map/MazeGenerator.ts:24-55 | a fresh width-by-height grid that is returned and kept: every tile is the random fill's tile except the exit (width-1, m), which is an opening; border tiles are openings or walls and interior tiles floor or walls |
| MazeGeneration.MazeGenerator.FloorUpToAre | assets/Script/Map/MazeGenerator.ts:220-225 | when the scan reaches row y of column x it has listed exactly the floor tiles of the inner rows of the earlier columns and of column x above row y, in scan order |
| MazeGeneration.MazeGenerator.FloorBeforeAre | assets/Script/Map/MazeGenerator.ts:220-226 | when the scan starts column x it has listed exactly the floor tiles of columns 1 to x-1 and rows 1 to height-2, in scan order |
| MazeGeneration.MazeGenerator.FloorTilesAre | assets/Script/Map/MazeGenerator.ts:218-228 | a position is in the floor list exactly when it is strictly inside the border and its tile is floor |
| MazeGeneration.MazeGenerator.FloorTilesOrdered | assets/Script/Map/MazeGenerator.ts:218-228 | the floor list is in column-major order and has no repeats |
| MazeGeneration.MazeGenerator.FindFloorPositions | assets/Script/Map/MazeGenerator.ts:218-228 | the nested loops return exactly the scanned floor list |
| MazeGeneration.MazeGenerator.SelectRandomPositions | assets/Script/Map/MazeGenerator.ts:230-245 | the draw takes SelectionSize rounds: the smaller of count and half the candidates, rounded up, because the bound re-reads the shrinking list. Each drawn position is available and not excluded; the drawn multiset is within the filtered list; a list without repeats yields no repeats |
| MazeGeneration.MazeGenerator.CarvePassage | assets/Script/Map/MazeGenerator.ts:103-122 | after the carve from (x, y) the visited marks are exactly the cells CarveFrom enters; the tiles CarveFrom carves are floor and every other tile is unchanged |
| MazeGeneration.MazeGenerator.CarveToward | assets/Script/Map/MazeGenerator.ts:112-121 | one pass of the direction loop leaves the visited marks and the floor exactly as TryMove says, and every other tile unchanged |
| MazeGeneration.MazeGenerator.FillWalls | assets/Script/Map/MazeGenerator.ts:59-66 | a fresh width-by-height grid with the wall tile of every position |
| MazeGeneration.MazeGenerator.OpenEntranceAndExit | assets/Script/Map/MazeGenerator.ts:72-90 | the four override writes, in order (later writes win): (0, m) opening, (1, m) floor, (width-2, m) opening, (width-3, m) floor when width-2 > 0; every other tile unchanged |
| MazeGeneration.MazeGenerator.ClearLastRowAndColumn | assets/Script/Map/MazeGenerator.ts:92-98 | the last row and the last column become openings and every other tile is unchanged |
| MazeGeneration.MazeGenerator.EntranceExitTile | assets/Script/Map/MazeGenerator.ts:72-90 | the overrides touch only (0, m), (1, m), (width-3, m) and (width-2, m); each touched tile becomes an opening or the floor tile, and every other tile keeps the tile beneath |
| MazeGeneration.MazeGenerator.BacktrackTile | assets/Script/Map/MazeGenerator.ts:58-101 | the finished backtrack tile at (x, y): the last row and column are openings, and every tile is an opening, floor or a wall |
| MazeGeneration.MazeGenerator.GenerateBacktrackMaze | assets/Script/Map/MazeGenerator.ts:58-101 | a fresh width-by-height grid, returned and kept, whose every tile is BacktrackTile over the floor of the whole carve from (1, 1) |
| MazeGeneration.MazeGenerator.BacktrackLayout | assets/Script/Map/MazeGenerator.ts:72-98 | for width >= 4 and height >= 3, whatever was carved: the last row and column, the entrance (0, m) and the exit (width-2, m) are openings; (1, m) and (width-3, m) are floor; every other tile is floor or a wall |
| MazeGeneration.MazeGenerator.BacktrackFloorIsCarved | assets/Script/Map/MazeGenerator.ts:58-101 | for a width and height of at least 3, away from row m, a tile of the finished maze is floor exactly when the carve made it floor |
| MazeGeneration.MazeGenerator.BacktrackEnds | assets/Script/Map/MazeGenerator.ts:72-90 | on a backtrack maze of at least 4 by 3, the floor list holds (1, m) and (width-3, m) and not the exit (width-2, m) |
| MazeGeneration.MazeGenerator.PlaceEntities | assets/Script/Map/MazeGenerator.ts:155-215 | a level exists exactly when the floor list is non-empty. Its grid is the generator's own. There are no spikes or bursts. The player (TOP, IDLE) is on the first listed tile nearest (1, m), and on (1, m) itself when listed. The door (BOTTOM, IDLE) is on the first listed tile nearest (width-2, m), and on (width-3, m) when the exit is unlisted and that tile is listed. There is at most one wooden skeleton (TOP, IDLE), on a listed tile that is neither, present exactly when such a tile exists |
| MazeGeneration.MazeGenerator.GenerateLevel | assets/Script/Map/MazeGenerator.ts:142-216 | the grid is the backtrack maze, and the level is assembled as above over its floor scan. For width >= 4 and height >= 3 a level always exists, with the player on (1, m) and the door on (width-3, m) |
| MazeGeneration.Skeletons | assets/Script/Map/MazeGenerator.ts:192-198 | one wooden skeleton facing TOP and IDLE per drawn position, on that position |
| MazeGeneration.PlacedLevelHolds | assets/Script/Map/MazeGenerator.ts:159-215 | the level built from a non-empty scan-ordered floor list keeps the whole placement promise: the player and door are the first nearest listed tiles ((1, m), the tile just inside the entrance, when listed, the exit's left neighbour when the exit is unlisted and it is listed), and the one-enemy draw avoids both and is empty only when nothing else is listed |
| Carving.CarveFrom | assets/Script/Map/MazeGenerator.ts:103-122 | entering p appends p to the cells entered and to the tiles carved, before anything the moves after it add |
| Carving.CarveDirs | assets/Script/Map/MazeGenerator.ts:112-121 | the direction loop only extends the cells entered and the tiles carved |
| Carving.TryMove | assets/Script/Map/MazeGenerator.ts:113-120 | one pass only extends the cells entered and the tiles carved |
| Carving.Backtrack | assets/Script/Map/MazeGenerator.ts:69-70 | the whole carve enters (1, 1) first |
| Carving.FromCountClosed | assets/Script/Map/MazeGenerator.ts:103-122 | entering a cell and carving on makes 2k - 1 tiles floor for the k cells it enters, and every cell it enters has all its inside moves leading to entered cells |
| Carving.DirsCountClosed | assets/Script/Map/MazeGenerator.ts:112-121 | the direction loop makes two tiles floor per cell it enters, and after it every inside move from the cell leads to an entered cell |
| Carving.FromCells | assets/Script/Map/MazeGenerator.ts:103-122 | cells are entered at most once each, and each is an odd/odd cell at (1, 1) or strictly inside |
| Carving.DirsCells | assets/Script/Map/MazeGenerator.ts:112-121 | the same, for the direction loop |
| Carving.FromWithin | assets/Script/Map/MazeGenerator.ts:103-122 | carved tiles are at (1, 1) or strictly inside; for a width and height of at least 3 they are never on the first or last row or column (with a width or height of 2, (1, 1) itself is on the last column or row) |
| Carving.DirsWithin | assets/Script/Map/MazeGenerator.ts:112-121 | the same, for the direction loop |
| Carving.MoveWithin | assets/Script/Map/MazeGenerator.ts:116-120 | the same, for one pass of the direction loop |
| Carving.FromTree | assets/Script/Map/MazeGenerator.ts:103-122 | every entered cell after the first is linked to the cell it was entered from through a carved tile between them |
| Carving.DirsTree | assets/Script/Map/MazeGenerator.ts:112-121 | the same, for the direction loop |
| Carving.FromCovered | assets/Script/Map/MazeGenerator.ts:103-122 | the carved tiles are listed once each, and each is an entered cell or lies between two entered cells one move apart |
| Carving.DirsCovered | assets/Script/Map/MazeGenerator.ts:112-121 | the same, for the direction loop |
| Carving.BacktrackStaysInside | assets/Script/Map/MazeGenerator.ts:103-122 | the whole carve enters each cell once, only odd/odd cells, and carves only (1, 1) or strictly inside tiles; for a width and height of at least 3 every carved tile is strictly inside, so no border tile is carved |
| Carving.BacktrackFloorCount | assets/Script/Map/MazeGenerator.ts:103-122 | V cells entered leave exactly 2V - 1 distinct floor tiles |
| Carving.BacktrackReachesAll | assets/Script/Map/MazeGenerator.ts:103-122 | every odd/odd interior cell is entered, for every move order |
| Carving.BacktrackConnected | assets/Script/Map/MazeGenerator.ts:103-122 | every carved tile is joined to (1, 1) by a 4-adjacent path of carved tiles |
| Placement.Dist | assets/Script/Map/MazeGenerator.ts:164-165 | the Manhattan distance of the reductions: zero exactly at the target, and at least the gap in either coordinate |
| Placement.Filter | assets/Script/Map/MazeGenerator.ts:235-237 | a position is kept exactly when it is available and not excluded; the result has no more copies than the input and no repeats if the input has none |
| Placement.PlaceNear | assets/Script/Map/MazeGenerator.ts:160-179 | a position is chosen exactly when the list is non-empty |
| Placement.Closer | assets/Script/Map/MazeGenerator.ts:163-167 | one step of the reduction keeps one of its two candidates, and no farther from the target than either |
| Placement.ReduceClosest | assets/Script/Map/MazeGenerator.ts:163-167 | the reduction over a suffix returns its seed or a position of the suffix, never farther from the target than the seed |
| Placement.ReduceFindsFirstNearest | assets/Script/Map/MazeGenerator.ts:163-167 | the reduction, seeded with the first nearest of a prefix, returns the first nearest of the whole list |
| Placement.FirstNearestUnique | assets/Script/Map/MazeGenerator.ts:163-167 | there is only one first nearest index |
| Placement.PlaceNearIsFirstNearest | assets/Script/Map/MazeGenerator.ts:160-179 | the choice, found or reduced, is the listed position that no listed position is nearer than and that every earlier listed position is strictly farther than |
| Placement.PlaceNearListed | assets/Script/Map/MazeGenerator.ts:160-179 | the choice is a listed position |
| Placement.PlaceNearIsNearestListed | assets/Script/Map/MazeGenerator.ts:160-179 | on a scan-ordered list, the choice is listed, nearest, and strictly nearer than every position before it in scan order |
| Placement.PlaceNearTakesLeftNeighbour | assets/Script/Map/MazeGenerator.ts:171-179 | on a scan-ordered list that lacks the target but holds the tile left of it, the choice is that tile |
| Placement.Splice | assets/Script/Map/MazeGenerator.ts:242 | removing index i shortens the list by one and removes exactly that element's copy; no repeats survive removal |
| Placement.DrawStep | assets/Script/Map/MazeGenerator.ts:241-242 | one round of the draw keeps drawn plus left equal to the filtered list, and keeps them disjoint and repeat-free |
| Placement.DrawnWithin | assets/Script/Map/MazeGenerator.ts:239-244 | the drawn positions are a sub-multiset of the filtered list, are all in it, and have no repeats when it has none |
| Placement.SelectionOfOne | assets/Script/Map/MazeGenerator.ts:182 | asked for one position, the draw takes one exactly when there is a candidate |
| Placement.OneSelected | assets/Script/Map/MazeGenerator.ts:182 | the one-enemy draw takes at most one position, and exactly one when some listed position is neither the player's nor the door's |
| Placement.SelectionSize | assets/Script/Map/MazeGenerator.ts:240 | the number of rounds: none for a count of 0 or less; otherwise at most the count and at most half the candidates rounded up, and equal to the count unless the shrinking list stopped the loop first |
| Placement.SelectionSizeReached | assets/Script/Map/MazeGenerator.ts:240 | the loop, stopped by its re-read bound, has run exactly SelectionSize rounds |
| Movement.DirectionIndex | assets/Script/Base/MoveableEntity.ts:49 | every direction has an index 0..3 in the direction order, which maps it back to the direction |
| Movement.DirectionOrderBijective | assets/Script/Base/MoveableEntity.ts:51 | reading a direction back from its index gives the index: the order is one-to-one |
| Movement.LeftIndex | assets/Script/Base/MoveableEntity.ts:50 | the turn-left index arithmetic yields a direction index 0..3 again |
| Movement.RightIndex | assets/Script/Base/MoveableEntity.ts:56 | the turn-right index arithmetic yields a direction index 0..3 again |
| Movement.LeftOf | assets/Script/Base/MoveableEntity.ts:49-51 | the facing after TURNLEFT: its index in the direction order is the left-rotated index of the old facing |
| Movement.RightOf | assets/Script/Base/MoveableEntity.ts:55-57 | the facing after TURNRIGHT: its index in the direction order is the right-rotated index of the old facing |
| Movement.RotationIndices | assets/Script/Base/MoveableEntity.ts:50-56 | the left rotation takes index i to i-1, and 0 to 3; the right rotation takes i to i+1, and 3 to 0 |
| Movement.TurnStep | assets/Script/Base/MoveableEntity.ts:49-57 | the new facing's index is the rotated index |
| Movement.TurnChangesFacing | assets/Script/Base/MoveableEntity.ts:47-58 | either turn changes the facing |
| Movement.TurnsCancel | assets/Script/Base/MoveableEntity.ts:50-56 | a left turn then a right turn, or a right then a left, restores the facing |
| Movement.FourRightIndices | assets/Script/Base/MoveableEntity.ts:56 | four right rotations of a direction index come back to it |
| Movement.FourRightsRestore | assets/Script/Base/MoveableEntity.ts:56 | four right turns restore the facing |
| Movement.FourLeftsRestore | assets/Script/Base/MoveableEntity.ts:50 | four left turns restore the facing |
| Movement.Command | assets/Script/Base/MoveableEntity.ts:28-62 | the switch of `move`: afterwards the entity is moving exactly when it was or the command is a step; a step or a busy entity keeps the facing and state; a turn keeps the targets |
| Movement.BusyIgnores | assets/Script/Base/MoveableEntity.ts:28-32 | while moving, every command leaves targets, facing, state and the moving flag unchanged |
| Movement.StepMovesTarget | assets/Script/Base/MoveableEntity.ts:34-62 | from rest, TOP and BOTTOM move the target row by -1 and +1, LEFT and RIGHT the column by -1 and +1. The other coordinate, the facing and the state are kept, the entity is now moving, and the next command is ignored |
| Movement.TurnKeepsTarget | assets/Script/Base/MoveableEntity.ts:47-58 | from rest, TURNLEFT sets the turn-left state and keeps the targets and rest; a following TURNRIGHT sets the turn-right state and restores the facing |
| Movement.TurnSetsIndex | assets/Script/Base/MoveableEntity.ts:47-58 | from rest, one turn keeps the targets and leaves the entity at rest with the turn's state; TURNRIGHT takes the facing index d to (d + 1) % 4, TURNLEFT to (d + 3) % 4 |
| Movement.FourRightTurns | assets/Script/Base/MoveableEntity.ts:53-58 | from rest, four TURNRIGHT commands leave everything as it was except the state, which is the turn-right state |
| Movement.MoveableEntity.Init | assets/Script/Base/MoveableEntity.ts:7-23 | the target starts on the position and the entity is not moving; a given non-zero speed replaces the default of 1/10 |
| Movement.MoveableEntity.Move | assets/Script/Base/MoveableEntity.ts:28-63 | the targets, moving flag, facing and state become the Command of the old ones; the position and speed are unchanged |
| Movement.Arrived | assets/Script/Base/MoveableEntity.ts:80 | the arrival test: both coordinates are within one step of the target |
| Movement.MoveableEntity.Settle | assets/Script/Base/MoveableEntity.ts:80-90 | within one step in both coordinates, the entity sits exactly on its target and is not moving; otherwise position and moving flag are unchanged; targets, speed, facing and state are always unchanged |

## Left out

- The random draws are modelled as arbitrary choices, not as probabilities: the 10% border openings,
  the comparison with `wallDensity` (a floating-point number), the image draw of the shaded walls
  and the splice index. Properties hold for every choice.
- The shuffle of the four moves of a carved cell is modelled as an arbitrary permutation `choose`.
  It does not model how the comparator-based sort arrives at that permutation.
- `generateRandomMaze` requires width and height of at least 1. With width 0 the exit write indexes
  a missing column. With height 0 it grows a column array past its length; that is not modelled.
- `generateBacktrackMaze` and `generateLevel` require width and height of at least 2. With width 1
  the carve from (1, 1) fails on a missing column. With height 1 the carve writes past a column's
  length; that is not modelled either.
- PlaceEntities: with an empty floor list the source reads a field of an undefined position and
  fails; the model returns `None` in that case.
- GenerateLevel: the configuration's random-maze branch is dead code (the flag is the constant
  `true`), so only the backtrack branch is modelled. The configuration's width and height are
  unused by the source and not modelled.
- CarveToward and the phase methods FillWalls, OpenEntranceAndExit and ClearLastRowAndColumn split
  the bodies of `carvePassage` and `generateBacktrackMaze` into pieces with their own contracts. The
  statements and their order are the source's.
- The direction order is not part of the sources modelled here. The model fixes TOP, RIGHT, BOTTOM,
  LEFT. The turn lemmas use only the fact that the order is one-to-one and that the rotations are
  the source's index arithmetic.
- Movement.MoveableEntity.Settle: positions and speed are exact reals, not IEEE doubles. The
  per-frame float stepping toward the target (MoveableEntity.ts lines 65-78) is left out, so Settle
  is only the arrival snap.
- The base entity `init` (position, facing, state, state machine) is not part of this model.
  MoveableEntity.Init takes its effect on position, facing and state as given.
- The event subscription, the `PLAYER_MOVE_END` emission, the console log, the unsubscription and
  the pixel conversion with `setPosition` are I/O and are left out.
- The game scene, the map loader, the wooden skeleton enemy and the console-printing test script are not
  part of this model.
