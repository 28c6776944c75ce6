# Dooria maze core in Dafny

This project models how the Dooria game mode (`AUE5TopDownARPGGameMode`) builds and interprets the maze behind a level, and proves properties of that model.

The game mode owns a character grid `Maze`:

- `'#'` is a wall.
- `' '` is open, or not yet visited.
- `'V'` marks a cell visited while carving.
- `'0'`..`'9'` label the exits.

`StartPlay` builds a 21 x 21 grid in three steps:

1. `InitializeMaze` lays out the lattice: open cells where both indices are odd, walls everywhere else.
2. `GenerateMaze` carves passages by a randomised depth-first search with an explicit stack. It then resets the visited markers, draws four distinct perimeter slots with `GetRandPerimPoints`, and labels them `'0'`..`'3'`.
3. `SpawnMaze` walks the grid row by row and places what each position asks for:
   - a wall gives an obstruction;
   - an open cell gives a path tile carrying its eight-neighbour wall bitmask (`CalculateWallTileType`);
   - exit `'0'` gives a path tile and the player;
   - every other exit gives a path tile and a door, turned by `CalculateRotation` to face outwards.

Modules, following the program's structure:

- `MazeGrid` (grid.dfy): the grid and its markers, `IsValidCell`, the neighbour list of `GetUnvisitedNeighbors`, the truncating midpoint of `RemoveWall`, and the lattice of `InitializeMaze`.
- `Perimeter` (perimeter.dfy): the perimeter list of `GetRandPerimPoints`, in the order the C++ game mode builds it.
- `Classifier` (classifier.dfy): the wall bitmask and the door rotation.
- `LevelBuilder` (level.dfy): `SpawnMaze` as a row-major list of placement events.
- `Carving`, `Connectivity` and `Generation` (carving.dfy, connectivity.dfy, generation.dfy): the carving loop's invariant and what it guarantees.
- `MazeGameMode` (gamemode.dfy): the class `GameMode` with the field `maze` and the C++ game mode's methods. Each of its loops is a `while` loop proved against the functions above.

Started from the lattice, the main result is that `GenerateMaze` leaves a perfect maze:

- every non-exit position holds its carved marker: no `'V'` is left, and the border and the even-even positions are walls;
- exactly one fewer wall slot is open than there are lattice cells;
- every lattice cell can be walked to from (1, 1) through open wall slots.

Randomness is a parameter: `RandomSource.RandRange(lo, hi)` promises only `lo <= r <= hi`, and nothing in the model relies on more.

## Model

| member | source | states |
|---|---|---|
| MazeGameMode.RandomSource.RandRange | Source/UE5TopDownARPG/UE5TopDownARPGGameMode.cpp:103 | the drawn index lies in [lo, hi] |
| MazeGameMode.Digit | Source/UE5TopDownARPG/UE5TopDownARPGGameMode.cpp:121 | the label of exit k is the digit character whose value is k |
| MazeGameMode.GameMode.InitializeMaze | Source/UE5TopDownARPG/UE5TopDownARPGGameMode.cpp:25-36 | the new grid is the lattice, built row by row |
| MazeGrid.LatticeGrid | Source/UE5TopDownARPG/UE5TopDownARPGGameMode.cpp:25-36 | the lattice has rows rows of cols entries each; (i, j) is ' ' iff i and j are both odd, and '#' otherwise |
| MazeGameMode.GameMode.GetUnvisitedNeighbors | Source/UE5TopDownARPG/UE5TopDownARPGGameMode.cpp:44-55 | the loop over the four directions returns exactly the neighbour list |
| MazeGrid.IsValidCell | Source/UE5TopDownARPG/UE5TopDownARPGGameMode.cpp:39-41 | a cell that passes lies inside the grid and holds ' '; no cell of row 0 or column 0 passes |
| MazeGrid.UnvisitedNeighbors | Source/UE5TopDownARPG/UE5TopDownARPGGameMode.cpp:44-55 | at most 4 cells; each is a two-step move from the cell that passes IsValidCell; every move that passes is listed; they come in direction order (0,2), (2,0), (0,-2), (-2,0) |
| MazeGrid.NeighborsBeforeFacts | Source/UE5TopDownARPG/UE5TopDownARPGGameMode.cpp:46-53 | after the first d directions, the list holds exactly the valid moves among them, in direction order |
| MazeGrid.UnvisitedNeighborsMember | Source/UE5TopDownARPG/UE5TopDownARPGGameMode.cpp:39-55 | a cell is listed iff it is one of the four moves and lies in [1, rows) x [1, cols) holding ' ' |
| MazeGameMode.GameMode.RemoveWall | Source/UE5TopDownARPG/UE5TopDownARPGGameMode.cpp:58-62 | ' ' is written at the truncated midpoint of the two cells, and no other position changes (through Set's contract) |
| MazeGameMode.GameMode.GetRandPerimPoints | Source/UE5TopDownARPG/UE5TopDownARPGGameMode.cpp:65-85 | the given output is kept as a prefix; every drawn cell is in the perimeter list and different from all cells before it; the output grows to at most min(num, list size); when it falls short, every allowed draw was used |
| Perimeter.PerimPositions | Source/UE5TopDownARPG/UE5TopDownARPGGameMode.cpp:68-76 | the list has two entries per odd column and two per odd row, and every entry is a border cell whose other coordinate is odd |
| Perimeter.PerimPositionsMembers | Source/UE5TopDownARPG/UE5TopDownARPGGameMode.cpp:68-76 | a cell is in the list iff it is a top or bottom cell at an odd column, or a left or right cell at an odd row |
| Perimeter.TopBottomMembers | Source/UE5TopDownARPG/UE5TopDownARPGGameMode.cpp:69-72 | the first loop adds exactly the top and bottom cells at odd columns |
| Perimeter.LeftRightMembers | Source/UE5TopDownARPG/UE5TopDownARPGGameMode.cpp:73-76 | the second loop adds exactly the left and right cells at odd rows |
| Perimeter.PerimPositionsDistinct | Source/UE5TopDownARPG/UE5TopDownARPGGameMode.cpp:68-76 | for odd dimensions the list has (cols-1)+(rows-1) entries, all different |
| Perimeter.PerimCountAtLeast | Source/UE5TopDownARPG/UE5TopDownARPGGameMode.cpp:78 | from 2 x 2 up the list has at least 4 entries, so min(4, size) is 4; the entries need not be different cells (see TwoByTwoExitsAtMostThree) |
| Perimeter.TwoByTwoExitsAtMostThree | Source/UE5TopDownARPG/UE5TopDownARPGGameMode.cpp:68-84 | on 2 x 2 the list is (0,1), (1,1), (1,0), (1,1): four entries, so the loop waits for 4 exits, but any run of distinct draws from it has at most 3 |
| Perimeter.PerimInGrid | Source/UE5TopDownARPG/UE5TopDownARPGGameMode.cpp:117-121 | every cell of the list lies inside a rows x cols grid, so labelling an exit writes in range |
| MazeGameMode.GameMode.GenerateMaze | Source/UE5TopDownARPG/UE5TopDownARPGGameMode.cpp:88-124 | up to 4 distinct perimeter exits, fewer only when the draws ran out (for odd dimensions four distinct slots exist, by PerimPositionsDistinct; on 2 x 2 only three do, by TwoByTwoExitsAtMostThree); exit k holds digit k; started from the lattice, the result is a perfect maze |
| MazeGameMode.GameMode.CarvePassages | Source/UE5TopDownARPG/UE5TopDownARPGGameMode.cpp:93-108 | the carving loop terminates on any rectangular grid of at least 2 x 2; started from the lattice, it ends with the carving invariant for an empty stack and a tree of parent links |
| MazeGameMode.GameMode.ResetVisited | Source/UE5TopDownARPG/UE5TopDownARPGGameMode.cpp:111-115 | each odd-odd 'V' becomes ' ', and nothing else changes |
| MazeGameMode.GameMode.PlaceExits | Source/UE5TopDownARPG/UE5TopDownARPGGameMode.cpp:119-123 | exit k holds the digit for k; every other position and the grid's shape are unchanged |
| Generation.DfsStart | Source/UE5TopDownARPG/UE5TopDownARPGGameMode.cpp:93-94 | after marking (1, 1) and pushing it, the loop invariant holds |
| Generation.DfsPop | Source/UE5TopDownARPG/UE5TopDownARPGGameMode.cpp:97-100 | popping a cell without unvisited neighbours keeps the invariant |
| Generation.DfsPush | Source/UE5TopDownARPG/UE5TopDownARPGGameMode.cpp:100-107 | a push step keeps the invariant and strictly shrinks the set of unvisited lattice cells |
| Carving.CarveStart | Source/UE5TopDownARPG/UE5TopDownARPGGameMode.cpp:93-94 | on the lattice with (1, 1) visited, the carving invariant holds for the stack [(1, 1)] |
| Carving.CarvePop | Source/UE5TopDownARPG/UE5TopDownARPGGameMode.cpp:97-100 | dropping an exhausted cell from the stack keeps the carving invariant |
| Carving.CarvePush | Source/UE5TopDownARPG/UE5TopDownARPGGameMode.cpp:100-107 | the carved slot was a wall; the border and even-even positions stay walls; stack entries stay odd-odd and 'V'; open walls stay one fewer than visited cells |
| Carving.PushShrinks | Source/UE5TopDownARPG/UE5TopDownARPGGameMode.cpp:103-105 | on any grid the chosen cell is an open lattice cell, the slot between is in range and not a lattice cell, and the unvisited set shrinks |
| Carving.CarveCoversLattice | Source/UE5TopDownARPG/UE5TopDownARPGGameMode.cpp:96-108 | when the stack empties, every lattice cell is 'V' |
| Carving.ResetMarker | Source/UE5TopDownARPG/UE5TopDownARPGGameMode.cpp:113 | the only change is 'V' to ' ', and no 'V' is left at an odd-odd position |
| Carving.ResetAfterCarving | Source/UE5TopDownARPG/UE5TopDownARPGGameMode.cpp:110-115 | after the reset every position holds its carved marker (no 'V' left), and open walls are one fewer than lattice cells |
| Carving.LabelsKeepOpenWalls | Source/UE5TopDownARPG/UE5TopDownARPGGameMode.cpp:119-123 | writing digits on perimeter slots opens or closes no wall slot |
| Connectivity.LinkedPush | Source/UE5TopDownARPG/UE5TopDownARPGGameMode.cpp:103-105 | the chosen cell joins the tree as a child of the current one, through the wall just opened |
| Connectivity.AllReachable | Source/UE5TopDownARPG/UE5TopDownARPGGameMode.cpp:96-108 | when every lattice cell is visited, the tree links reach each of them from (1, 1) by a path through open walls |
| Connectivity.ReachableTransfer | Source/UE5TopDownARPG/UE5TopDownARPGGameMode.cpp:110-123 | reachability depends only on which wall slots are open, so the reset and the labels keep it |
| Generation.GenerateOutcome | Source/UE5TopDownARPG/UE5TopDownARPGGameMode.cpp:88-124 | the carving, the reset and the exit labels together give a perfect maze |
| MazeGameMode.GameMode.CalculateWallTileType | Source/UE5TopDownARPG/UE5TopDownARPGGameMode.cpp:209-250 | the accumulating loop over the eight sides returns the wall mask |
| Classifier.WallTileType | Source/UE5TopDownARPG/UE5TopDownARPGGameMode.cpp:209-250 | the mask is the binary number whose bit k is the wall test of side k (N, NE, E, SE, S, SW, W, NW), so it lies in 0..255 |
| Classifier.WallTileTypeBits | Source/UE5TopDownARPG/UE5TopDownARPGGameMode.cpp:209-250 | the mask lies in 0..255, and bit k is set iff side k passes the wall test |
| Classifier.MaskIsEncode | Source/UE5TopDownARPG/UE5TopDownARPGGameMode.cpp:234-247 | the sum of side values is the binary number whose bits are the eight wall tests |
| Classifier.WallTileTypeOrderIndependent | Source/UE5TopDownARPG/UE5TopDownARPGGameMode.cpp:223-236 | any order in which the map yields its eight entries gives the same mask |
| Classifier.EastIsNextColumn | Source/UE5TopDownARPG/UE5TopDownARPGGameMode.cpp:223-241 | with the key's first component moving the column, E is (i, j+1) and N is (i+1, j) |
| Classifier.WallBitCases | Source/UE5TopDownARPG/UE5TopDownARPGGameMode.cpp:240-246 | a side's bit is set iff its neighbour is outside [1, n) x [1, n), the transposed position is not ' ', or the neighbour is '#' |
| Classifier.WallBitForWallOrOutside | Source/UE5TopDownARPG/UE5TopDownARPGGameMode.cpp:243 | a neighbour outside [1, n) x [1, n) or holding '#' always sets its bit |
| Classifier.WallBitOnSymmetricGrid | Source/UE5TopDownARPG/UE5TopDownARPGGameMode.cpp:243 | on a grid equal to its transpose, a bit is set iff the neighbour is out of range or not ' ' |
| Classifier.TransposedReadSetsOpenSide | Source/UE5TopDownARPG/UE5TopDownARPGGameMode.cpp:243 | an open east neighbour still sets the E bit when the transposed position is a wall |
| Classifier.Rotation | Source/UE5TopDownARPG/UE5TopDownARPGGameMode.cpp:296-323 | the yaw is one of 0, 90, 180, 270 |
| Classifier.RotationOnPerimeter | Source/UE5TopDownARPG/UE5TopDownARPGGameMode.cpp:296-323 | a perimeter slot lies on exactly one edge, and its yaw is that edge's outward yaw: bottom 90, right 180, top 270, left 0 |
| Classifier.RotationInterior | Source/UE5TopDownARPG/UE5TopDownARPGGameMode.cpp:318-322 | a cell on no edge gets yaw 0 |
| MazeGameMode.GameMode.SpawnPathAtGridLoc | Source/UE5TopDownARPG/UE5TopDownARPGGameMode.cpp:170-180 | the path tile at (i, j) carries the wall mask of (i, j) |
| MazeGameMode.GameMode.SpawnAtGridLoc | Source/UE5TopDownARPG/UE5TopDownARPGGameMode.cpp:186-204 | the if-chain for one position issues exactly that position's events |
| MazeGameMode.GameMode.SpawnRow | Source/UE5TopDownARPG/UE5TopDownARPGGameMode.cpp:185-205 | the inner loop issues exactly the events of row i, column by column |
| MazeGameMode.GameMode.SpawnMaze | Source/UE5TopDownARPG/UE5TopDownARPGGameMode.cpp:182-207 | the nested loops issue exactly the grid's event list |
| LevelBuilder.CellEvents | Source/UE5TopDownARPG/UE5TopDownARPGGameMode.cpp:186-204 | one position gives at most two events, all placed at that position, and none exactly when its marker is not '#', ' ' or a digit |
| LevelBuilder.SpawnEventsMembers | Source/UE5TopDownARPG/UE5TopDownARPGGameMode.cpp:182-207 | an event is issued iff it lies in the grid and is one of its own position's events |
| LevelBuilder.SpawnEventsByMarker | Source/UE5TopDownARPG/UE5TopDownARPGGameMode.cpp:186-204 | both ways, kind by kind: '#' gives an obstruction; ' ' or a digit gives a path tile with the mask; '0' gives the player; '1'..'9' give a door with the rotation; any other marker gives nothing |
| LevelBuilder.SpawnEvents | Source/UE5TopDownARPG/UE5TopDownARPGGameMode.cpp:182-207 | the events come in row-major order of their positions, and no event occurs twice, since each position is visited once; with SpawnEventsByMarker, '#' gives exactly one obstruction and ' ' exactly one path tile |
| LevelBuilder.SpawnEventsPathFirst | Source/UE5TopDownARPG/UE5TopDownARPGGameMode.cpp:196-203 | the player and every door come right after the path tile of their position |
| MazeGameMode.GameMode.StartPlay | Source/UE5TopDownARPG/UE5TopDownARPGGameMode.cpp:331-354 | a 21 x 21 perfect maze; the player stands exactly on exit 0, and there is exactly one player event; every other exit gets a door facing outwards; every door stands on one of those exits and faces outwards from an edge it lies on |
| MazeGameMode.ExitEvents | Source/UE5TopDownARPG/UE5TopDownARPGGameMode.cpp:196-203 | in a perfect maze with labelled exits, the player is on exit 0 alone, with exactly one player event, and doors are exactly on the other exits, each facing outwards from an edge it lies on |
| MazeGameMode.ExitMarker | Source/UE5TopDownARPG/UE5TopDownARPGGameMode.cpp:119-123 | in a perfect maze a digit appears only on an exit, and it is that exit's index |

## Left out

- GetRandPerimPoints: a rejection loop cannot be shown to end under an arbitrary random source. The loop therefore makes at most `maxDraws` draws, and when the output is short the contract says the draws ran out. The C++ loop can only reach min(num, list size) when the list has no repeated cell, which holds for odd dimensions (PerimPositionsDistinct). When both dimensions are even, (rows-1, cols-1) is listed twice, and a dimension of 1 also repeats cells. Then fewer distinct cells than min(num, size) may exist and the C++ loop never ends. TwoByTwoExitsAtMostThree shows this on 2 x 2, where min(4, 4) is 4 but at most three distinct exits exist; the model there returns at most three exits with every draw used.
- GenerateMaze: has the same draw bound as GetRandPerimPoints. It promises four exits only when the draws did not run out. On grids whose perimeter list repeats a cell, such as 2 x 2, the C++ version hangs; the model does not capture that hang.
- StartPlay: has the same draw bound.
- GenerateMaze: the perfect-maze result is proved only when the grid on entry is InitializeMaze's lattice with odd dimensions of at least 3, as StartPlay supplies. On other rectangular grids only termination, the exit properties and the grid's shape are proved.
- GenerateMaze: requires a rectangular grid of at least 2 x 2. GenerateMaze reads `Maze[1][1]` and indexes rows up to `rows - 1`, so it depends on that too.
- CalculateWallTileType: requires a non-empty square grid. The transposed `IsValidCell` read stays in range only there, and `Maze[0]` must exist.
- SpawnMaze: requires a square grid, for the same reason, since it computes the mask of every open cell.
- The C++ loops are split into methods of their own. CarvePassages, ResetVisited and PlaceExits are the three stages of GenerateMaze. SpawnRow and SpawnAtGridLoc are the two loop levels of SpawnMaze.
- RandRange: the linear congruential body is only a placeholder for the engine's generator. Callers rely on no more than the bounds.
- `srand(time(nullptr))`: wall-clock seeding is replaced by the injected random source.
- Spawning: BasicSpawn, the actor classes and casts, `ensure`, possessing the player and `SetActorRotation` are not modelled. The model stops at the list of events these calls would act on.
- CalculateUELocation and CellSize: these are floating-point world coordinates, not modelled.
- FRotator: a door's rotation is kept as its yaw in whole degrees, since only constant yaws occur.
- `UE_LOG` and the maze print loop in StartPlay: output is not modelled.
- The constructor's class lookups and EndGame: engine wiring and logging, not modelled.
- `SpawnCellAtGridLoc`, `SpawnObstructionAtGridLoc`, `SpawnPlayerAtGridLoc` and `SpawnDoorAtGridLoc`: each appears only as the event it issues.
- The iteration order of the `TMap` in CalculateWallTileType is not fixed by the C++ code. The model walks the entries in written order, and WallTileTypeOrderIndependent shows that every order gives the same mask.
- 32-bit integers: rows, columns, indices and masks stay far below 2^31, so the model uses unbounded integers. `RemoveWall`'s halving is written as C++ division, which truncates toward zero.
- Source/UE5TopDownARPG/DooriaGameInstance.h is not part of this model.
