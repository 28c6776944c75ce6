/** The game mode object: it owns the maze grid, builds it with a randomised
    depth-first carving, places the exits, and turns the grid into the list
    of placements the level is built from. */
module MazeGameMode {
  import opened MazeGrid
  import opened Perimeter
  import opened Classifier
  import opened LevelBuilder
  import opened Carving
  import opened Connectivity
  import opened Generation

  /** The engine's random integer source, FMath::RandRange(lo, hi): any value
      in [lo, hi]. The generator below is a placeholder; the contract is all
      the model relies on. */
  class RandomSource {
    var state: nat

    constructor (seed: nat)
      ensures state == seed
    {
      state := seed;
    }

    method RandRange(lo: int, hi: int) returns (r: int)
      requires lo <= hi
      modifies this
      ensures lo <= r <= hi
    {
      state := (state * 1103515245 + 12345) % 2147483648;
      r := lo + state % (hi - lo + 1);
    }
  }

  /** The digit marker of the exit with index k. */
  function Digit(k: nat): (ch: char)
    requires k < 10
    ensures '0' <= ch <= '9' && ch as int - '0' as int == k
  {
    ('0' as int + k) as char
  }

  function Min(a: int, b: int): int {
    if a <= b then a else b
  }

  /** How many exits GenerateMaze asks for. */
  const ExitCount: int := 4

  /** The side length StartPlay uses for both dimensions. */
  const MazeSize: int := 21

  class GameMode {
    /** Maze[row][col]: '#' wall, ' ' open, 'V' visited while carving, a digit for an exit. */
    var maze: Grid

    constructor ()
      ensures maze == []
    {
      maze := [];
    }

    /** Builds the rows x cols lattice: open where both indices are odd. */
    method InitializeMaze(rows: int, cols: int)
      modifies this
      ensures maze == LatticeGrid(rows, cols)
    {
      var m: Grid := [];
      var i := 0;
      while i < rows
        invariant 0 <= i <= Extent(rows)
        invariant m == LatticeGrid(rows, cols)[..i]
      {
        var row: seq<char> := [];
        var j := 0;
        while j < cols
          invariant 0 <= j <= Extent(cols)
          invariant row == LatticeGrid(rows, cols)[i][..j]
        {
          row := row + [if i % 2 != 0 && j % 2 != 0 then OPEN else WALL];
          j := j + 1;
        }
        assert row == LatticeGrid(rows, cols)[i];
        assert LatticeGrid(rows, cols)[..i + 1] == LatticeGrid(rows, cols)[..i] + [row];
        m := m + [row];
        i := i + 1;
      }
      maze := m;
    }

    /** The valid unvisited cells two steps from `cell`, in direction order. */
    method GetUnvisitedNeighbors(cell: Cell, rows: int, cols: int) returns (neighbors: seq<Cell>)
      requires Readable(maze, rows, cols)
      ensures neighbors == UnvisitedNeighbors(maze, cell, rows, cols)
    {
      neighbors := [];
      var d := 0;
      while d < 4
        invariant 0 <= d <= 4
        invariant neighbors == NeighborsBefore(maze, cell, rows, cols, d)
      {
        var n := Cell(cell.row + Directions[d].0, cell.col + Directions[d].1);
        if IsValidCell(maze, n.row, n.col, rows, cols) {
          neighbors := neighbors + [n];
        }
        d := d + 1;
      }
    }

    /** Opens the wall halfway between the two cells. */
    method RemoveWall(current: Cell, next: Cell)
      requires InGrid(maze, Midpoint(current, next))
      modifies this
      ensures maze == Set(old(maze), Midpoint(current, next), OPEN)
    {
      var wall := Midpoint(current, next);
      maze := maze[wall.row := maze[wall.row][wall.col := OPEN]];
    }

    /** Draws up to num distinct perimeter slots and appends them to output0.
        The C++ game mode loops until enough slots are drawn; here at most maxDraws
        draws are made, and stopping short means the draws ran out. Where the
        list repeats a cell (2 x 2, say) no number of draws may be enough. */
    method GetRandPerimPoints(rows: int, cols: int, output0: seq<Cell>, num: int, rng: RandomSource, maxDraws: nat)
      returns (output: seq<Cell>, draws: nat)
      modifies rng
      ensures |output0| <= |output| && output[..|output0|] == output0
      ensures forall k :: |output0| <= k < |output| ==> output[k] in PerimPositions(rows, cols)
      ensures forall a, b :: 0 <= a < b < |output| && |output0| <= b ==> output[a] != output[b]
      ensures |output0| < Min(num, |PerimPositions(rows, cols)|) ==> |output| <= Min(num, |PerimPositions(rows, cols)|)
      ensures |output0| >= Min(num, |PerimPositions(rows, cols)|) ==> output == output0
      ensures draws <= maxDraws
      ensures |output| < Min(num, |PerimPositions(rows, cols)|) ==> draws == maxDraws
    {
      var perim: seq<Cell> := [];
      var col := 1;
      while col < cols
        invariant 1 <= col && col % 2 == 1
        invariant col - 1 <= |TopBottom(rows, cols)|
        invariant perim == TopBottom(rows, cols)[..col - 1]
      {
        assert TopBottom(rows, cols)[col - 1] == Cell(0, col);
        assert TopBottom(rows, cols)[col] == Cell(rows - 1, col);
        perim := perim + [Cell(0, col), Cell(rows - 1, col)];
        col := col + 2;
      }
      assert perim == TopBottom(rows, cols);
      var row := 1;
      while row < rows
        invariant 1 <= row && row % 2 == 1
        invariant row - 1 <= |LeftRight(rows, cols)|
        invariant perim == TopBottom(rows, cols) + LeftRight(rows, cols)[..row - 1]
      {
        assert LeftRight(rows, cols)[row - 1] == Cell(row, 0);
        assert LeftRight(rows, cols)[row] == Cell(row, cols - 1);
        perim := perim + [Cell(row, 0), Cell(row, cols - 1)];
        row := row + 2;
      }
      assert perim == PerimPositions(rows, cols);

      var target := Min(num, |perim|);
      output := output0;
      draws := 0;
      while |output| < target && draws < maxDraws
        invariant draws <= maxDraws
        invariant |output0| <= |output| && output[..|output0|] == output0
        invariant forall k :: |output0| <= k < |output| ==> output[k] in perim
        invariant forall a, b :: 0 <= a < b < |output| && |output0| <= b ==> output[a] != output[b]
        invariant |output0| < target ==> |output| <= target
        invariant |output0| >= target ==> output == output0
        decreases maxDraws - draws
      {
        var randIndex := rng.RandRange(0, |perim| - 1);
        draws := draws + 1;
        if perim[randIndex] !in output {
          output := output + [perim[randIndex]];
        }
      }
    }

    /** Carves the maze by a randomised depth-first search from (1, 1), then
        resets the visited markers, draws ExitCount perimeter exits and writes
        their digits. Started from the lattice InitializeMaze builds, the
        result is a perfect maze: every lattice cell is open and reachable
        from (1, 1), and exactly one fewer wall is opened than there are
        cells, as in a spanning tree. */
    method GenerateMaze(rows: int, cols: int, rng: RandomSource, maxDraws: nat)
      returns (ghost exits: seq<Cell>, ghost draws: nat)
      requires IsRect(maze, rows, cols) && rows >= 2 && cols >= 2
      modifies this, rng
      ensures IsRect(maze, rows, cols)
      ensures |exits| <= ExitCount && draws <= maxDraws
      ensures |exits| < ExitCount ==> draws == maxDraws
      ensures forall k :: 0 <= k < |exits| ==> exits[k] in PerimPositions(rows, cols)
      ensures forall a, b :: 0 <= a < b < |exits| ==> exits[a] != exits[b]
      ensures forall k :: 0 <= k < |exits| ==> InGrid(maze, exits[k]) && At(maze, exits[k]) == Digit(k)
      ensures FromLattice(old(maze), rows, cols) ==> PerfectMaze(maze, rows, cols, exits)
    {
      ghost var fromLattice := FromLattice(maze, rows, cols);
      ghost var parent, depth := CarvePassages(rows, cols, rng);
      ghost var carved := maze;

      ResetVisited(rows, cols);
      ghost var reset := maze;

      var doors;
      doors, draws := GetRandPerimPoints(rows, cols, [], ExitCount, rng, maxDraws);
      PerimCountAtLeast(rows, cols);
      PerimInGrid(maze, rows, cols, doors);
      PlaceExits(doors);
      exits := doors;
      if fromLattice {
        GenerateOutcome(carved, reset, maze, rows, cols, exits, parent, depth);
      }
    }

    /** The first stage of GenerateMaze: the depth-first carving from (1, 1)
        with an explicit stack. On any grid it terminates, and from the
        lattice it leaves every lattice cell visited, as a tree recorded by
        parent and depth. */
    method CarvePassages(rows: int, cols: int, rng: RandomSource)
      returns (ghost parent: map<Cell, Cell>, ghost depth: map<Cell, nat>)
      requires IsRect(maze, rows, cols) && rows >= 2 && cols >= 2
      modifies this, rng
      ensures DfsInv(maze, rows, cols, [], FromLattice(old(maze), rows, cols), parent, depth)
    {
      ghost var fromLattice := FromLattice(maze, rows, cols);
      DfsStart(maze, rows, cols);
      maze := Set(maze, Cell(1, 1), VISITED);
      var stack := [Cell(1, 1)];
      parent, depth := map[], map[Cell(1, 1) := 0];
      while stack != []
        invariant DfsInv(maze, rows, cols, stack, fromLattice, parent, depth)
        decreases UnvisitedCells(maze, rows, cols), |stack|
      {
        ghost var g := maze;
        var current := stack[|stack| - 1];
        ghost var rest := stack[..|stack| - 1];
        assert stack == rest + [current];
        stack := stack[..|stack| - 1];
        var neighbors := GetUnvisitedNeighbors(current, rows, cols);
        if |neighbors| > 0 {
          stack := stack + [current];
          var pick := rng.RandRange(0, |neighbors| - 1);
          var chosen := neighbors[pick];
          assert chosen in UnvisitedNeighbors(g, current, rows, cols);
          DfsPush(g, rows, cols, rest, current, chosen, fromLattice, parent, depth);
          parent, depth := parent[chosen := current], NewDepth(depth, current, chosen);
          RemoveWall(current, chosen);
          maze := Set(maze, chosen, VISITED);
          assert maze == Carve(g, current, chosen);
          stack := stack + [chosen];
        } else {
          DfsPop(g, rows, cols, rest, current, fromLattice, parent, depth);
        }
      }
    }

    /** The second stage of GenerateMaze: every lattice cell still marked
        visited is reset to open; nothing else changes. */
    method ResetVisited(rows: int, cols: int)
      requires IsRect(maze, rows, cols)
      modifies this
      ensures IsRect(maze, rows, cols)
      ensures forall r, c :: 0 <= r < rows && 0 <= c < cols ==> maze[r][c] == ResetMarker(old(maze)[r][c], r, c)
    {
      ghost var carved := maze;
      var i := 1;
      while i < rows
        invariant 1 <= i && i % 2 == 1
        invariant IsRect(maze, rows, cols)
        invariant forall r, c :: 0 <= r < rows && 0 <= c < cols ==>
                    maze[r][c] == if r < i then ResetMarker(carved[r][c], r, c) else carved[r][c]
      {
        var j := 1;
        while j < cols
          invariant 1 <= j && j % 2 == 1
          invariant IsRect(maze, rows, cols)
          invariant forall r, c :: 0 <= r < rows && 0 <= c < cols ==>
                      maze[r][c] == if r < i || (r == i && c < j) then ResetMarker(carved[r][c], r, c) else carved[r][c]
        {
          if maze[i][j] == VISITED {
            maze := Set(maze, Cell(i, j), OPEN);
          }
          j := j + 2;
        }
        i := i + 2;
      }
    }

    /** The last stage of GenerateMaze: exit k gets the digit '0' + k;
        nothing else changes. */
    method PlaceExits(doors: seq<Cell>)
      requires |doors| < 10
      requires forall k :: 0 <= k < |doors| ==> InGrid(maze, doors[k])
      requires forall a, b :: 0 <= a < b < |doors| ==> doors[a] != doors[b]
      modifies this
      ensures |maze| == |old(maze)| && forall r :: 0 <= r < |maze| ==> |maze[r]| == |old(maze)[r]|
      ensures forall k :: 0 <= k < |doors| ==> InGrid(maze, doors[k]) && At(maze, doors[k]) == Digit(k)
      ensures forall r, c :: 0 <= r < |maze| && 0 <= c < |maze[r]| && Cell(r, c) !in doors ==>
                maze[r][c] == old(maze)[r][c]
    {
      var doorIdx := 0;
      while doorIdx < |doors|
        invariant 0 <= doorIdx <= |doors|
        invariant |maze| == |old(maze)| && forall r :: 0 <= r < |maze| ==> |maze[r]| == |old(maze)[r]|
        invariant forall k :: 0 <= k < doorIdx ==> At(maze, doors[k]) == Digit(k)
        invariant forall r, c :: 0 <= r < |maze| && 0 <= c < |maze[r]| && Cell(r, c) !in doors[..doorIdx] ==>
                    maze[r][c] == old(maze)[r][c]
      {
        maze := Set(maze, doors[doorIdx], Digit(doorIdx));
        doorIdx := doorIdx + 1;
      }
      assert doors[..|doors|] == doors;
    }
 
    /** The bitmask of the eight neighbours that count as walls, one bit per
        side in the order N, NE, E, SE, S, SW, W, NW. */
    method CalculateWallTileType(i: int, j: int) returns (result: int)
      requires IsSquare(maze) && |maze| > 0
      ensures result == WallTileType(maze, i, j)
    {
      result := 0;
      var k := 0;
      assert Sides[0..] == Sides;
      while k < |Sides|
        invariant 0 <= k <= |Sides|
        invariant result + MaskOver(maze, i, j, Sides[k..]) == WallTileType(maze, i, j)
      {
        var s := Sides[k];
        MaskStep(maze, i, j, k);
        var newI := i + Offset(s).1;
        var newJ := j + Offset(s).0;
        assert NeighborOf(i, j, s) == Cell(newI, newJ);
        if !IsValidCell(maze, newJ, newI, |maze[0]|, |maze|) || maze[newI][newJ] == WALL {
          result := result + SideBit(s);
        }
        k := k + 1;
      }
    }

    /** A path tile at (i, j) carrying its wall bitmask. */
    method SpawnPathAtGridLoc(i: int, j: int) returns (e: Event)
      requires IsSquare(maze) && |maze| > 0
      ensures e == Path(Cell(i, j), WallTileType(maze, i, j))
    {
      var tileType := CalculateWallTileType(i, j);
      e := Path(Cell(i, j), tileType);
    }

    /** The body of SpawnMaze's inner loop: what position (i, j) places. */
    method SpawnAtGridLoc(i: int, j: int) returns (placed: seq<Event>)
      requires IsSquare(maze) && 0 <= i < |maze| && 0 <= j < |maze|
      ensures placed == CellEvents(maze, i, j)
    {
      var here := Cell(i, j);
      var ch := maze[i][j];
      if ch == WALL {
        placed := [Obstruction(here)];
      } else if ch == OPEN {
        var path := SpawnPathAtGridLoc(i, j);
        placed := [path];
      } else if ch == '0' {
        var path := SpawnPathAtGridLoc(i, j);
        placed := [path, Player(here)];
      } else if '1' <= ch <= '9' {
        var path := SpawnPathAtGridLoc(i, j);
        placed := [path, Door(here, Rotation(maze, i, j))];
      } else {
        placed := [];
      }
    }

    /** SpawnMaze's inner loop: what row i places, column by column. */
    method SpawnRow(i: int) returns (placed: seq<Event>)
      requires IsSquare(maze) && 0 <= i < |maze|
      ensures placed == RowEvents(maze, i, 0)
    {
      placed := [];
      assert [] + RowEvents(maze, i, 0) == RowEvents(maze, i, 0);
      var j := 0;
      while j < |maze[i]|
        invariant 0 <= j <= |maze[i]|
        invariant placed + RowEvents(maze, i, j) == RowEvents(maze, i, 0)
      {
        var cell := SpawnAtGridLoc(i, j);
        RowStep(maze, i, j, placed, cell);
        placed := placed + cell;
        j := j + 1;
      }
      assert placed + [] == placed;
    }

    /** Walks the grid row by row and lists what each position places. */
    method SpawnMaze() returns (events: seq<Event>)
      requires IsSquare(maze)
      ensures events == SpawnEvents(maze)
    {
      events := [];
      assert [] + RowsEvents(maze, 0) == SpawnEvents(maze);
      var i := 0;
      while i < |maze|
        invariant 0 <= i <= |maze|
        invariant events + RowsEvents(maze, i) == SpawnEvents(maze)
      {
        var row := SpawnRow(i);
        RowsStep(maze, i, events, row);
        events := events + row;
        i := i + 1;
      }
      assert events + [] == events;
    }

    /** Builds a MazeSize x MazeSize lattice, carves it, and lists the
        placements: the player on exit 0, a door facing outwards on every
        other exit. */
    method StartPlay(rng: RandomSource, maxDraws: nat)
      returns (events: seq<Event>, ghost exits: seq<Cell>, ghost draws: nat)
      modifies this, rng
      ensures IsSquare(maze) && |maze| == MazeSize
      ensures events == SpawnEvents(maze)
      ensures PerfectMaze(maze, MazeSize, MazeSize, exits)
      ensures |exits| <= ExitCount && (|exits| < ExitCount ==> draws == maxDraws)
      ensures forall a, b :: 0 <= a < b < |exits| ==> exits[a] != exits[b]
      ensures forall k :: 0 <= k < |exits| ==> exits[k] in PerimPositions(MazeSize, MazeSize)
      ensures forall c :: Player(c) in events <==> |exits| > 0 && c == exits[0]
      ensures |exits| > 0 ==>
                exists k :: 0 <= k < |events| && events[k] == Player(exits[0]) &&
                  forall l :: 0 <= l < |events| && events[l].Player? ==> l == k
      ensures forall k, e :: 1 <= k < |exits| && OnEdge(exits[k], e, MazeSize, MazeSize) ==>
                Door(exits[k], OutwardYaw(e)) in events
      ensures forall c, yaw :: Door(c, yaw) in events ==>
                (exists k :: 1 <= k < |exits| && exits[k] == c) &&
                exists e :: OnEdge(c, e, MazeSize, MazeSize) && yaw == OutwardYaw(e)
    {
      var rows := MazeSize;
      var cols := MazeSize;
      InitializeMaze(rows, cols);
      exits, draws := GenerateMaze(rows, cols, rng, maxDraws);
      events := SpawnMaze();
      ExitEvents(maze, rows, exits);
    }
  }

  /** The placements of a perfect n x n maze with digit-labelled exits: the
      player stands exactly on exit 0, a door facing outwards on every other
      exit, and no door anywhere else. */
  lemma ExitEvents(g: Grid, n: int, exits: seq<Cell>)
    requires OddDims(n, n) && IsSquare(g) && |g| == n
    requires PerfectMaze(g, n, n, exits) && |exits| <= ExitCount
    requires forall a, b :: 0 <= a < b < |exits| ==> exits[a] != exits[b]
    requires forall k :: 0 <= k < |exits| ==> exits[k] in PerimPositions(n, n)
    requires forall k :: 0 <= k < |exits| ==> InGrid(g, exits[k]) && At(g, exits[k]) == Digit(k)
    ensures forall c :: Player(c) in SpawnEvents(g) <==> |exits| > 0 && c == exits[0]
    ensures |exits| > 0 ==>
              exists k :: 0 <= k < |SpawnEvents(g)| && SpawnEvents(g)[k] == Player(exits[0]) &&
                forall l :: 0 <= l < |SpawnEvents(g)| && SpawnEvents(g)[l].Player? ==> l == k
    ensures forall k, e :: 1 <= k < |exits| && OnEdge(exits[k], e, n, n) ==>
              Door(exits[k], OutwardYaw(e)) in SpawnEvents(g)
    ensures forall c, yaw :: Door(c, yaw) in SpawnEvents(g) ==>
              (exists k :: 1 <= k < |exits| && exits[k] == c) && exists e :: OnEdge(c, e, n, n) && yaw == OutwardYaw(e)
  {
    forall c ensures Player(c) in SpawnEvents(g) <==> |exits| > 0 && c == exits[0] {
      SpawnEventsByMarker(g, c, 0, 0);
      if InGrid(g, c) && At(g, c) == '0' {
        ExitMarker(g, n, exits, c);
      }
    }
    if |exits| > 0 {
      OnePlayer(SpawnEvents(g), exits[0]);
    }
    forall k, e | 1 <= k < |exits| && OnEdge(exits[k], e, n, n)
      ensures Door(exits[k], OutwardYaw(e)) in SpawnEvents(g)
    {
      RotationOnPerimeter(g, n, n, exits[k]);
      SpawnEventsByMarker(g, exits[k], 0, OutwardYaw(e));
    }
    forall c, yaw | Door(c, yaw) in SpawnEvents(g)
      ensures (exists k :: 1 <= k < |exits| && exits[k] == c) && exists e :: OnEdge(c, e, n, n) && yaw == OutwardYaw(e)
    {
      SpawnEventsByMarker(g, c, 0, yaw);
      ExitMarker(g, n, exits, c);
      RotationOnPerimeter(g, n, n, c);
    }
  }

  /** In a list without repeats where c is the only player position, the
      player event occurs exactly once. */
  lemma OnePlayer(es: seq<Event>, c: Cell)
    requires forall a, b :: 0 <= a < b < |es| ==> es[a] != es[b]
    requires forall d :: Player(d) in es <==> d == c
    ensures exists k :: 0 <= k < |es| && es[k] == Player(c) && forall l :: 0 <= l < |es| && es[l].Player? ==> l == k
  {
    assert Player(c) in es;
    var k :| 0 <= k < |es| && es[k] == Player(c);
    forall l | 0 <= l < |es| && es[l].Player? ensures l == k {
      assert Player(es[l].at) in es;
    }
  }

  /** A digit in the carved grid marks an exit, and the digit is its index. */
  lemma ExitMarker(g: Grid, n: int, exits: seq<Cell>, c: Cell)
    requires PerfectMaze(g, n, n, exits) && |exits| <= ExitCount
    requires forall a, b :: 0 <= a < b < |exits| ==> exits[a] != exits[b]
    requires forall k :: 0 <= k < |exits| ==> InGrid(g, exits[k]) && At(g, exits[k]) == Digit(k)
    requires InGrid(g, c) && '0' <= At(g, c) <= '9'
    ensures exists k :: 0 <= k < |exits| && c == exits[k] && At(g, c) == Digit(k)
    ensures At(g, c) == '0' ==> |exits| > 0 && c == exits[0]
    ensures At(g, c) != '0' ==> exists k :: 1 <= k < |exits| && exits[k] == c
  {
    var k :| 0 <= k < |exits| && exits[k] == c;
  }
}
