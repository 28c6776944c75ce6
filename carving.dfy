/** The invariants of GenerateMaze's depth-first carving loop, stated and
    proved on grid values, so that the method only has to call one lemma per
    iteration. */
module Carving {
  import opened MazeGrid
  import opened Perimeter

  /** A position whose row and column are both odd: a cell of the lattice. */
  predicate IsLatticeCell(c: Cell, rows: int, cols: int) {
    0 <= c.row < rows && 0 <= c.col < cols && c.row % 2 == 1 && c.col % 2 == 1
  }

  predicate IsBorder(r: int, c: int, rows: int, cols: int) {
    r == 0 || r == rows - 1 || c == 0 || c == cols - 1
  }

  /** An interior position between two lattice cells: exactly one coordinate odd. */
  predicate IsWallSlot(r: int, c: int, rows: int, cols: int) {
    1 <= r < rows - 1 && 1 <= c < cols - 1 && (r % 2 == 1) != (c % 2 == 1)
  }

  /** The markers a position may hold while carving: the border and the
      even-even positions stay walls, lattice cells are open or visited, wall
      slots are walls or opened. */
  predicate CarvingMarker(ch: char, r: int, c: int, rows: int, cols: int) {
    if IsBorder(r, c, rows, cols) || (r % 2 == 0 && c % 2 == 0) then ch == WALL
    else if r % 2 == 1 && c % 2 == 1 then ch == OPEN || ch == VISITED
    else ch == WALL || ch == OPEN
  }

  /** The markers of the carved maze, before the exits are placed: every
      lattice cell open again. */
  predicate CarvedMarker(ch: char, r: int, c: int, rows: int, cols: int) {
    if IsBorder(r, c, rows, cols) || (r % 2 == 0 && c % 2 == 0) then ch == WALL
    else if r % 2 == 1 && c % 2 == 1 then ch == OPEN
    else ch == WALL || ch == OPEN
  }

  ghost predicate Shape(g: Grid, rows: int, cols: int) {
    IsRect(g, rows, cols) &&
    forall r, c :: 0 <= r < rows && 0 <= c < cols ==> CarvingMarker(g[r][c], r, c, rows, cols)
  }

  /** The two lattice cells a wall slot separates. */
  function FlankA(r: int, c: int): Cell {
    if r % 2 == 1 then Cell(r, c - 1) else Cell(r - 1, c)
  }

  function FlankB(r: int, c: int): Cell {
    if r % 2 == 1 then Cell(r, c + 1) else Cell(r + 1, c)
  }

  /** A wall is opened only between two visited cells. */
  ghost predicate OpenWallsJoinVisited(g: Grid, rows: int, cols: int)
    requires IsRect(g, rows, cols)
  {
    forall r, c :: IsWallSlot(r, c, rows, cols) && g[r][c] == OPEN ==>
      At(g, FlankA(r, c)) == VISITED && At(g, FlankB(r, c)) == VISITED
  }

  /** Every stack entry is a lattice cell marked visited. */
  ghost predicate StackCells(g: Grid, rows: int, cols: int, stack: seq<Cell>)
    requires IsRect(g, rows, cols)
  {
    forall k :: 0 <= k < |stack| ==> IsLatticeCell(stack[k], rows, cols) && At(g, stack[k]) == VISITED
  }

  /** A visited cell that has left the stack has no unvisited neighbour left. */
  ghost predicate Exhausted(g: Grid, rows: int, cols: int, stack: seq<Cell>)
    requires IsRect(g, rows, cols)
  {
    forall r, c ::
      (0 <= r < rows && 0 <= c < cols && r % 2 == 1 && c % 2 == 1 &&
       g[r][c] == VISITED && Cell(r, c) !in stack) ==>
      UnvisitedNeighbors(g, Cell(r, c), rows, cols) == []
  }

  /** The opened wall slots. */
  ghost function OpenWalls(g: Grid, rows: int, cols: int): set<Cell>
    requires IsRect(g, rows, cols)
  {
    set r, c | 0 <= r < rows && 0 <= c < cols && IsWallSlot(r, c, rows, cols) && g[r][c] == OPEN :: Cell(r, c)
  }

  /** The visited positions. */
  ghost function VisitedCells(g: Grid, rows: int, cols: int): set<Cell>
    requires IsRect(g, rows, cols)
  {
    set r, c | 0 <= r < rows && 0 <= c < cols && g[r][c] == VISITED :: Cell(r, c)
  }

  /** The lattice cells not yet visited. */
  ghost function UnvisitedCells(g: Grid, rows: int, cols: int): set<Cell>
    requires IsRect(g, rows, cols)
  {
    set r, c | 0 <= r < rows && 0 <= c < cols && r % 2 == 1 && c % 2 == 1 && g[r][c] == OPEN :: Cell(r, c)
  }

  /** All lattice cells of a rows x cols grid. */
  ghost function LatticeCells(rows: int, cols: int): set<Cell> {
    set r, c | 0 <= r < rows && 0 <= c < cols && r % 2 == 1 && c % 2 == 1 :: Cell(r, c)
  }

  /** The loop invariant of GenerateMaze. */
  ghost predicate CarveInv(g: Grid, rows: int, cols: int, stack: seq<Cell>) {
    && OddDims(rows, cols)
    && Shape(g, rows, cols)
    && g[1][1] == VISITED
    && OpenWallsJoinVisited(g, rows, cols)
    && StackCells(g, rows, cols, stack)
    && Exhausted(g, rows, cols, stack)
    && |OpenWalls(g, rows, cols)| + 1 == |VisitedCells(g, rows, cols)|
  }

  lemma OpenWallsMembers(g: Grid, rows: int, cols: int, x: Cell)
    requires IsRect(g, rows, cols)
    ensures x in OpenWalls(g, rows, cols) <==>
              0 <= x.row < rows && 0 <= x.col < cols && IsWallSlot(x.row, x.col, rows, cols) && g[x.row][x.col] == OPEN
  {
    if 0 <= x.row < rows && 0 <= x.col < cols && IsWallSlot(x.row, x.col, rows, cols) && g[x.row][x.col] == OPEN {
      assert Cell(x.row, x.col) in OpenWalls(g, rows, cols);
    }
  }

  lemma VisitedCellsMembers(g: Grid, rows: int, cols: int, x: Cell)
    requires IsRect(g, rows, cols)
    ensures x in VisitedCells(g, rows, cols) <==> 0 <= x.row < rows && 0 <= x.col < cols && g[x.row][x.col] == VISITED
  {
    if 0 <= x.row < rows && 0 <= x.col < cols && g[x.row][x.col] == VISITED {
      assert Cell(x.row, x.col) in VisitedCells(g, rows, cols);
    }
  }

  lemma UnvisitedCellsMembers(g: Grid, rows: int, cols: int, x: Cell)
    requires IsRect(g, rows, cols)
    ensures x in UnvisitedCells(g, rows, cols) <==>
              0 <= x.row < rows && 0 <= x.col < cols && x.row % 2 == 1 && x.col % 2 == 1 && g[x.row][x.col] == OPEN
  {
    if 0 <= x.row < rows && 0 <= x.col < cols && x.row % 2 == 1 && x.col % 2 == 1 && g[x.row][x.col] == OPEN {
      assert Cell(x.row, x.col) in UnvisitedCells(g, rows, cols);
    }
  }

  lemma LatticeCellsMembers(rows: int, cols: int, x: Cell)
    ensures x in LatticeCells(rows, cols) <==> IsLatticeCell(x, rows, cols)
  {
    if IsLatticeCell(x, rows, cols) {
      assert Cell(x.row, x.col) in LatticeCells(rows, cols);
    }
  }

  /** The state right after Maze[1][1] = 'V' and the first push. */
  lemma CarveStart(rows: int, cols: int)
    requires OddDims(rows, cols)
    ensures InGrid(LatticeGrid(rows, cols), Cell(1, 1))
    ensures CarveInv(Set(LatticeGrid(rows, cols), Cell(1, 1), VISITED), rows, cols, [Cell(1, 1)])
  {
    var g0 := LatticeGrid(rows, cols);
    var g := Set(g0, Cell(1, 1), VISITED);
    assert IsRect(g, rows, cols);
    forall r, c | 0 <= r < rows && 0 <= c < cols ensures CarvingMarker(g[r][c], r, c, rows, cols) {
      assert g[r][c] == if r == 1 && c == 1 then VISITED else g0[r][c];
    }
    forall x ensures x !in OpenWalls(g, rows, cols) {
      OpenWallsMembers(g, rows, cols, x);
      if 0 <= x.row < rows && 0 <= x.col < cols && IsWallSlot(x.row, x.col, rows, cols) {
        assert g[x.row][x.col] == g0[x.row][x.col];
      }
    }
    assert OpenWalls(g, rows, cols) == {};
    forall x ensures x in VisitedCells(g, rows, cols) <==> x == Cell(1, 1) {
      VisitedCellsMembers(g, rows, cols, x);
      if 0 <= x.row < rows && 0 <= x.col < cols && x != Cell(1, 1) {
        assert g[x.row][x.col] == g0[x.row][x.col];
      }
    }
    assert VisitedCells(g, rows, cols) == {Cell(1, 1)};
    forall r, c | 0 <= r < rows && 0 <= c < cols && g[r][c] == VISITED ensures Cell(r, c) == Cell(1, 1) {
      VisitedCellsMembers(g, rows, cols, Cell(r, c));
    }
  }

  /** Popping a cell with no unvisited neighbour keeps the invariant. */
  lemma CarvePop(g: Grid, rows: int, cols: int, stack: seq<Cell>, current: Cell)
    requires CarveInv(g, rows, cols, stack + [current])
    requires UnvisitedNeighbors(g, current, rows, cols) == []
    ensures CarveInv(g, rows, cols, stack)
  {
    forall k | 0 <= k < |stack| ensures IsLatticeCell(stack[k], rows, cols) && At(g, stack[k]) == VISITED {
      assert stack[k] == (stack + [current])[k];
    }
    forall r, c | 0 <= r < rows && 0 <= c < cols && r % 2 == 1 && c % 2 == 1 &&
      g[r][c] == VISITED && Cell(r, c) !in stack
      ensures UnvisitedNeighbors(g, Cell(r, c), rows, cols) == []
    {
      if Cell(r, c) != current {
        assert Cell(r, c) !in stack + [current];
      }
    }
  }

  /** On any grid: a neighbour of a lattice cell is a lattice cell, the wall
      between them is in the grid and is not a lattice cell. */
  lemma StepInGrid(rows: int, cols: int, current: Cell, d: int)
    requires IsLatticeCell(current, rows, cols) && 0 <= d < 4
    requires 1 <= Candidate(current, d).row < rows && 1 <= Candidate(current, d).col < cols
    ensures IsLatticeCell(Candidate(current, d), rows, cols)
    ensures var m := Midpoint(current, Candidate(current, d));
            0 <= m.row < rows && 0 <= m.col < cols && !IsLatticeCell(m, rows, cols)
  {
    var r, c := current.row, current.col;
    if d == 0 {
      assert Midpoint(current, Candidate(current, d)) == Cell(r, c + 1);
    } else if d == 1 {
      assert Midpoint(current, Candidate(current, d)) == Cell(r + 1, c);
    } else if d == 2 {
      assert Midpoint(current, Candidate(current, d)) == Cell(r, c - 1);
    } else {
      assert Midpoint(current, Candidate(current, d)) == Cell(r - 1, c);
    }
  }

  /** On any rectangular grid one push step marks an unvisited lattice cell
      and opens a non-lattice position, so the unvisited lattice cells shrink:
      the carving loop terminates whatever the grid holds. */
  lemma PushShrinks(g: Grid, rows: int, cols: int, current: Cell, chosen: Cell)
    requires IsRect(g, rows, cols) && IsLatticeCell(current, rows, cols)
    requires chosen in UnvisitedNeighbors(g, current, rows, cols)
    ensures IsLatticeCell(chosen, rows, cols) && At(g, chosen) == OPEN
    ensures InGrid(g, Midpoint(current, chosen)) && !IsLatticeCell(Midpoint(current, chosen), rows, cols)
    ensures UnvisitedCells(Carve(g, current, chosen), rows, cols) < UnvisitedCells(g, rows, cols)
  {
    UnvisitedNeighborsMember(g, current, rows, cols, chosen);
    var d := if chosen == Candidate(current, 0) then 0 else if chosen == Candidate(current, 1) then 1
             else if chosen == Candidate(current, 2) then 2 else 3;
    StepInGrid(rows, cols, current, d);
    var m := Midpoint(current, chosen);
    var h := Carve(g, current, chosen);
    CarveAt(g, rows, cols, current, chosen, 0, 0);
    forall x ensures x in UnvisitedCells(h, rows, cols) <==> x in UnvisitedCells(g, rows, cols) && x != chosen {
      UnvisitedCellsMembers(g, rows, cols, x);
      UnvisitedCellsMembers(h, rows, cols, x);
      if 0 <= x.row < rows && 0 <= x.col < cols {
        CarveAt(g, rows, cols, current, chosen, x.row, x.col);
      }
    }
    UnvisitedCellsMembers(g, rows, cols, chosen);
  }

  /** A two-step move from a lattice cell that stays in [1, rows) x [1, cols)
      lands on a lattice cell, across a wall slot flanked by the two cells. */
  lemma StepGeometry(rows: int, cols: int, current: Cell, d: int)
    requires OddDims(rows, cols) && IsLatticeCell(current, rows, cols) && 0 <= d < 4
    requires 1 <= Candidate(current, d).row < rows && 1 <= Candidate(current, d).col < cols
    ensures IsLatticeCell(Candidate(current, d), rows, cols)
    ensures var m := Midpoint(current, Candidate(current, d));
            IsWallSlot(m.row, m.col, rows, cols) &&
            ((FlankA(m.row, m.col) == current && FlankB(m.row, m.col) == Candidate(current, d)) ||
             (FlankA(m.row, m.col) == Candidate(current, d) && FlankB(m.row, m.col) == current))
  {
    var r, c := current.row, current.col;
    if d == 0 {
      assert Midpoint(current, Candidate(current, d)) == Cell(r, c + 1);
    } else if d == 1 {
      assert Midpoint(current, Candidate(current, d)) == Cell(r + 1, c);
    } else if d == 2 {
      assert Midpoint(current, Candidate(current, d)) == Cell(r, c - 1);
    } else {
      assert Midpoint(current, Candidate(current, d)) == Cell(r - 1, c);
    }
  }

  /** The neighbour chosen from the current cell: where it lies, the wall
      between them, and that the two cells flank that wall. */
  lemma ChosenGeometry(g: Grid, rows: int, cols: int, current: Cell, chosen: Cell)
    requires OddDims(rows, cols) && IsRect(g, rows, cols)
    requires IsLatticeCell(current, rows, cols)
    requires chosen in UnvisitedNeighbors(g, current, rows, cols)
    ensures IsLatticeCell(chosen, rows, cols) && g[chosen.row][chosen.col] == OPEN
    ensures var m := Midpoint(current, chosen);
            IsWallSlot(m.row, m.col, rows, cols) &&
            ((FlankA(m.row, m.col) == current && FlankB(m.row, m.col) == chosen) ||
             (FlankA(m.row, m.col) == chosen && FlankB(m.row, m.col) == current))
  {
    UnvisitedNeighborsMember(g, current, rows, cols, chosen);
    if chosen == Candidate(current, 0) {
      StepGeometry(rows, cols, current, 0);
    } else if chosen == Candidate(current, 1) {
      StepGeometry(rows, cols, current, 1);
    } else if chosen == Candidate(current, 2) {
      StepGeometry(rows, cols, current, 2);
    } else {
      StepGeometry(rows, cols, current, 3);
    }
  }

  /** A lattice cell without unvisited neighbours keeps none in a grid that
      opens no lattice cell. */
  lemma NoNeighborsStaysNone(g: Grid, h: Grid, rows: int, cols: int, v: Cell)
    requires OddDims(rows, cols) && IsRect(g, rows, cols) && IsRect(h, rows, cols)
    requires IsLatticeCell(v, rows, cols)
    requires forall r, c :: 0 <= r < rows && 0 <= c < cols && r % 2 == 1 && c % 2 == 1 && h[r][c] == OPEN ==> g[r][c] == OPEN
    requires UnvisitedNeighbors(g, v, rows, cols) == []
    ensures UnvisitedNeighbors(h, v, rows, cols) == []
  {
    var hn := UnvisitedNeighbors(h, v, rows, cols);
    if hn != [] {
      var n := hn[0];
      UnvisitedNeighborsMember(h, v, rows, cols, n);
      UnvisitedNeighborsMember(g, v, rows, cols, n);
      var d := if n == Candidate(v, 0) then 0 else if n == Candidate(v, 1) then 1 else if n == Candidate(v, 2) then 2 else 3;
      StepGeometry(rows, cols, v, d);
      assert false;
    }
  }

  /** g after one push step: the wall at the midpoint opened, the chosen cell visited. */
  function Carve(g: Grid, current: Cell, chosen: Cell): Grid
    requires InGrid(g, Midpoint(current, chosen)) && InGrid(g, chosen)
  {
    Set(Set(g, Midpoint(current, chosen), OPEN), chosen, VISITED)
  }

  lemma CarveAt(g: Grid, rows: int, cols: int, current: Cell, chosen: Cell, r: int, c: int)
    requires IsRect(g, rows, cols) && InGrid(g, Midpoint(current, chosen)) && InGrid(g, chosen)
    requires 0 <= r < rows && 0 <= c < cols
    ensures IsRect(Carve(g, current, chosen), rows, cols)
    ensures Carve(g, current, chosen)[r][c] ==
              if Cell(r, c) == chosen then VISITED
              else if Cell(r, c) == Midpoint(current, chosen) then OPEN
              else g[r][c]
  {
  }

  /** One push step: the wall between the current cell and the chosen
      neighbour was closed and is opened (exactly one wall per newly visited
      cell), the invariant is kept with both cells on the stack, and the set
      of unvisited lattice cells shrinks. */
  lemma CarvePush(g: Grid, rows: int, cols: int, stack: seq<Cell>, current: Cell, chosen: Cell)
    requires CarveInv(g, rows, cols, stack + [current])
    requires chosen in UnvisitedNeighbors(g, current, rows, cols)
    ensures InGrid(g, Midpoint(current, chosen)) && InGrid(g, chosen)
    ensures At(g, Midpoint(current, chosen)) == WALL
    ensures CarveInv(Carve(g, current, chosen), rows, cols, stack + [current] + [chosen])
    ensures UnvisitedCells(Carve(g, current, chosen), rows, cols) < UnvisitedCells(g, rows, cols)
  {
    assert (stack + [current])[|stack|] == current;
    assert IsLatticeCell(current, rows, cols) && At(g, current) == VISITED;
    ChosenGeometry(g, rows, cols, current, chosen);
    var m := Midpoint(current, chosen);
    var h := Carve(g, current, chosen);
    assert m != chosen;
    // The wall between them is closed: an open one would join two visited cells.
    assert g[m.row][m.col] != OPEN;
    forall r, c | 0 <= r < rows && 0 <= c < cols
      ensures h[r][c] == if Cell(r, c) == chosen then VISITED else if Cell(r, c) == m then OPEN else g[r][c]
    {
      CarveAt(g, rows, cols, current, chosen, r, c);
    }
    CarveAt(g, rows, cols, current, chosen, 0, 0);
    CarvePushShape(g, h, rows, cols, current, chosen);
    CarvePushStack(g, h, rows, cols, stack, current, chosen);
    CarvePushSets(g, h, rows, cols, current, chosen);
  }

  lemma CarvePushShape(g: Grid, h: Grid, rows: int, cols: int, current: Cell, chosen: Cell)
    requires OddDims(rows, cols) && Shape(g, rows, cols) && IsRect(h, rows, cols) && g[1][1] == VISITED
    requires OpenWallsJoinVisited(g, rows, cols)
    requires IsLatticeCell(current, rows, cols) && g[current.row][current.col] == VISITED
    requires IsLatticeCell(chosen, rows, cols) && g[chosen.row][chosen.col] == OPEN
    requires var m := Midpoint(current, chosen);
             IsWallSlot(m.row, m.col, rows, cols) &&
             ((FlankA(m.row, m.col) == current && FlankB(m.row, m.col) == chosen) ||
              (FlankA(m.row, m.col) == chosen && FlankB(m.row, m.col) == current))
    requires forall r, c :: 0 <= r < rows && 0 <= c < cols ==>
               h[r][c] == if Cell(r, c) == chosen then VISITED else if Cell(r, c) == Midpoint(current, chosen) then OPEN else g[r][c]
    requires InGrid(g, Midpoint(current, chosen)) && InGrid(g, chosen) && h == Carve(g, current, chosen)
    ensures Shape(h, rows, cols) && h[1][1] == VISITED
    ensures OpenWallsJoinVisited(h, rows, cols)
  {
    CarvePushMarkers(g, h, rows, cols, current, chosen);
    CarvePushJoins(g, rows, cols, current, chosen);
  }

  lemma CarvePushMarkers(g: Grid, h: Grid, rows: int, cols: int, current: Cell, chosen: Cell)
    requires OddDims(rows, cols) && Shape(g, rows, cols) && IsRect(h, rows, cols) && g[1][1] == VISITED
    requires IsLatticeCell(chosen, rows, cols)
    requires var m := Midpoint(current, chosen); IsWallSlot(m.row, m.col, rows, cols)
    requires forall r, c :: 0 <= r < rows && 0 <= c < cols ==>
               h[r][c] == if Cell(r, c) == chosen then VISITED else if Cell(r, c) == Midpoint(current, chosen) then OPEN else g[r][c]
    ensures Shape(h, rows, cols) && h[1][1] == VISITED
  {
    forall r, c | 0 <= r < rows && 0 <= c < cols ensures CarvingMarker(h[r][c], r, c, rows, cols) {
      assert CarvingMarker(g[r][c], r, c, rows, cols);
    }
  }

  lemma CarvePushJoins(g: Grid, rows: int, cols: int, current: Cell, chosen: Cell)
    requires IsRect(g, rows, cols) && OpenWallsJoinVisited(g, rows, cols)
    requires IsLatticeCell(current, rows, cols) && g[current.row][current.col] == VISITED
    requires IsLatticeCell(chosen, rows, cols)
    requires var m := Midpoint(current, chosen);
             IsWallSlot(m.row, m.col, rows, cols) &&
             ((FlankA(m.row, m.col) == current && FlankB(m.row, m.col) == chosen) ||
              (FlankA(m.row, m.col) == chosen && FlankB(m.row, m.col) == current))
    requires InGrid(g, Midpoint(current, chosen)) && InGrid(g, chosen)
    ensures IsRect(Carve(g, current, chosen), rows, cols)
    ensures OpenWallsJoinVisited(Carve(g, current, chosen), rows, cols)
  {
    var h := Carve(g, current, chosen);
    CarveAt(g, rows, cols, current, chosen, 0, 0);
    forall r, c | IsWallSlot(r, c, rows, cols) && h[r][c] == OPEN
      ensures At(h, FlankA(r, c)) == VISITED && At(h, FlankB(r, c)) == VISITED
    {
      CarvePushJoinAt(g, rows, cols, current, chosen, r, c);
    }
  }

  /** The two cells a wall slot separates are lattice cells. */
  lemma FlanksOfSlot(r: int, c: int, rows: int, cols: int)
    requires IsWallSlot(r, c, rows, cols)
    ensures IsLatticeCell(FlankA(r, c), rows, cols) && IsLatticeCell(FlankB(r, c), rows, cols)
  {
  }

  lemma CarvePushJoinAt(g: Grid, rows: int, cols: int, current: Cell, chosen: Cell, r: int, c: int)
    requires IsRect(g, rows, cols) && OpenWallsJoinVisited(g, rows, cols)
    requires IsLatticeCell(current, rows, cols) && g[current.row][current.col] == VISITED
    requires IsLatticeCell(chosen, rows, cols)
    requires var m := Midpoint(current, chosen);
             IsWallSlot(m.row, m.col, rows, cols) &&
             ((FlankA(m.row, m.col) == current && FlankB(m.row, m.col) == chosen) ||
              (FlankA(m.row, m.col) == chosen && FlankB(m.row, m.col) == current))
    requires IsWallSlot(r, c, rows, cols)
    requires InGrid(g, Midpoint(current, chosen)) && InGrid(g, chosen)
    requires Carve(g, current, chosen)[r][c] == OPEN
    ensures IsRect(Carve(g, current, chosen), rows, cols)
    ensures At(Carve(g, current, chosen), FlankA(r, c)) == VISITED
    ensures At(Carve(g, current, chosen), FlankB(r, c)) == VISITED
  {
    var m := Midpoint(current, chosen);
    var a, b := FlankA(r, c), FlankB(r, c);
    FlanksOfSlot(r, c, rows, cols);
    CarveAt(g, rows, cols, current, chosen, a.row, a.col);
    CarveAt(g, rows, cols, current, chosen, b.row, b.col);
    CarveAt(g, rows, cols, current, chosen, r, c);
    assert a != m && b != m;
    if Cell(r, c) == m {
      assert a == current || a == chosen;
      assert b == current || b == chosen;
    } else {
      assert Cell(r, c) != chosen;
      assert g[r][c] == OPEN;
    }
  }

  lemma CarvePushStack(g: Grid, h: Grid, rows: int, cols: int, stack: seq<Cell>, current: Cell, chosen: Cell)
    requires OddDims(rows, cols) && Shape(g, rows, cols) && IsRect(h, rows, cols)
    requires StackCells(g, rows, cols, stack + [current]) && Exhausted(g, rows, cols, stack + [current])
    requires IsLatticeCell(chosen, rows, cols)
    requires !IsLatticeCell(Midpoint(current, chosen), rows, cols)
    requires forall r, c :: 0 <= r < rows && 0 <= c < cols ==>
               h[r][c] == if Cell(r, c) == chosen then VISITED else if Cell(r, c) == Midpoint(current, chosen) then OPEN else g[r][c]
    ensures StackCells(h, rows, cols, stack + [current] + [chosen])
    ensures Exhausted(h, rows, cols, stack + [current] + [chosen])
  {
    var m := Midpoint(current, chosen);
    var st := stack + [current] + [chosen];
    forall k | 0 <= k < |st| ensures IsLatticeCell(st[k], rows, cols) && At(h, st[k]) == VISITED {
      if k < |stack| + 1 {
        assert st[k] == (stack + [current])[k];
      }
    }
    forall r, c | 0 <= r < rows && 0 <= c < cols && r % 2 == 1 && c % 2 == 1 && h[r][c] == OPEN
      ensures g[r][c] == OPEN
    {
    }
    forall r, c | 0 <= r < rows && 0 <= c < cols && r % 2 == 1 && c % 2 == 1 &&
      h[r][c] == VISITED && Cell(r, c) !in st
      ensures UnvisitedNeighbors(h, Cell(r, c), rows, cols) == []
    {
      assert Cell(r, c) != chosen && Cell(r, c) != m;
      assert Cell(r, c) !in stack + [current];
      NoNeighborsStaysNone(g, h, rows, cols, Cell(r, c));
    }
  }

  lemma CarvePushSets(g: Grid, h: Grid, rows: int, cols: int, current: Cell, chosen: Cell)
    requires OddDims(rows, cols) && Shape(g, rows, cols) && IsRect(h, rows, cols)
    requires |OpenWalls(g, rows, cols)| + 1 == |VisitedCells(g, rows, cols)|
    requires IsLatticeCell(chosen, rows, cols) && g[chosen.row][chosen.col] == OPEN
    requires var m := Midpoint(current, chosen);
             IsWallSlot(m.row, m.col, rows, cols) && g[m.row][m.col] == WALL
    requires forall r, c :: 0 <= r < rows && 0 <= c < cols ==>
               h[r][c] == if Cell(r, c) == chosen then VISITED else if Cell(r, c) == Midpoint(current, chosen) then OPEN else g[r][c]
    ensures |OpenWalls(h, rows, cols)| + 1 == |VisitedCells(h, rows, cols)|
    ensures UnvisitedCells(h, rows, cols) < UnvisitedCells(g, rows, cols)
  {
    var m := Midpoint(current, chosen);
    forall x ensures x in OpenWalls(h, rows, cols) <==> x in OpenWalls(g, rows, cols) || x == m {
      OpenWallsMembers(g, rows, cols, x);
      OpenWallsMembers(h, rows, cols, x);
    }
    assert OpenWalls(h, rows, cols) == OpenWalls(g, rows, cols) + {m};
    OpenWallsMembers(g, rows, cols, m);
    forall x ensures x in VisitedCells(h, rows, cols) <==> x in VisitedCells(g, rows, cols) || x == chosen {
      VisitedCellsMembers(g, rows, cols, x);
      VisitedCellsMembers(h, rows, cols, x);
    }
    assert VisitedCells(h, rows, cols) == VisitedCells(g, rows, cols) + {chosen};
    VisitedCellsMembers(g, rows, cols, chosen);
    forall x ensures x in UnvisitedCells(h, rows, cols) <==> x in UnvisitedCells(g, rows, cols) && x != chosen {
      UnvisitedCellsMembers(g, rows, cols, x);
      UnvisitedCellsMembers(h, rows, cols, x);
    }
    UnvisitedCellsMembers(g, rows, cols, chosen);
    assert UnvisitedCells(h, rows, cols) == UnvisitedCells(g, rows, cols) - {chosen};
  }

  /** A lattice cell holds the unvisited or the visited marker. */
  lemma LatticeMarker(g: Grid, rows: int, cols: int, v: Cell)
    requires OddDims(rows, cols) && Shape(g, rows, cols) && IsLatticeCell(v, rows, cols)
    ensures g[v.row][v.col] == OPEN || g[v.row][v.col] == VISITED
  {
    assert CarvingMarker(g[v.row][v.col], v.row, v.col, rows, cols);
  }

  /** A cell without unvisited neighbours: each of its in-range two-step
      neighbours is visited. */
  lemma NoNeighborsMeansVisited(g: Grid, rows: int, cols: int, v: Cell, d: int)
    requires OddDims(rows, cols) && Shape(g, rows, cols)
    requires IsLatticeCell(v, rows, cols)
    requires UnvisitedNeighbors(g, v, rows, cols) == []
    requires 0 <= d < 4
    requires 1 <= Candidate(v, d).row < rows && 1 <= Candidate(v, d).col < cols
    ensures g[Candidate(v, d).row][Candidate(v, d).col] == VISITED
  {
    var n := Candidate(v, d);
    UnvisitedNeighborsMember(g, v, rows, cols, n);
    StepGeometry(rows, cols, v, d);
    LatticeMarker(g, rows, cols, n);
  }

  /** The part of the invariant left once the stack is empty that the
      coverage argument uses. */
  ghost predicate Finished(g: Grid, rows: int, cols: int) {
    && OddDims(rows, cols)
    && Shape(g, rows, cols)
    && g[1][1] == VISITED
    && Exhausted(g, rows, cols, [])
  }

  /** Once the stack is empty every lattice cell has been visited: starting
      from (1, 1), the first row is covered left to right, then each column
      top to bottom. */
  lemma CarveCoversLattice(g: Grid, rows: int, cols: int)
    requires Finished(g, rows, cols)
    ensures forall r, c :: 0 <= r < rows && 0 <= c < cols && r % 2 == 1 && c % 2 == 1 ==> g[r][c] == VISITED
  {
    FinishedIsClosed(g, rows, cols);
    ClosedCoversLattice(g, rows, cols);
  }

  lemma ClosedCoversLattice(g: Grid, rows: int, cols: int)
    requires IsRect(g, rows, cols) && rows >= 2 && cols >= 2 && g[1][1] == VISITED && Closed(g, rows, cols)
    ensures forall r, c :: 0 <= r < rows && 0 <= c < cols && r % 2 == 1 && c % 2 == 1 ==> g[r][c] == VISITED
  {
    forall r, c | 0 <= r < rows && 0 <= c < cols && r % 2 == 1 && c % 2 == 1
      ensures g[r][c] == VISITED
    {
      ColumnVisited(g, rows, cols, c, r);
    }
  }

  /** Every in-range two-step neighbour of a visited lattice cell is visited. */
  ghost predicate Closed(g: Grid, rows: int, cols: int)
    requires IsRect(g, rows, cols)
  {
    forall v, d :: IsLatticeCell(v, rows, cols) && g[v.row][v.col] == VISITED && 0 <= d < 4 &&
                   1 <= Candidate(v, d).row < rows && 1 <= Candidate(v, d).col < cols ==>
      g[Candidate(v, d).row][Candidate(v, d).col] == VISITED
  }

  lemma FinishedIsClosed(g: Grid, rows: int, cols: int)
    requires Finished(g, rows, cols)
    ensures Closed(g, rows, cols)
  {
    forall v, d | IsLatticeCell(v, rows, cols) && g[v.row][v.col] == VISITED && 0 <= d < 4 &&
                  1 <= Candidate(v, d).row < rows && 1 <= Candidate(v, d).col < cols
      ensures g[Candidate(v, d).row][Candidate(v, d).col] == VISITED
    {
      FinishedCellClosed(g, rows, cols, v);
      NoNeighborsMeansVisited(g, rows, cols, v, d);
    }
  }

  /** A visited lattice cell of the finished carving has no unvisited neighbour. */
  lemma FinishedCellClosed(g: Grid, rows: int, cols: int, v: Cell)
    requires Finished(g, rows, cols)
    requires IsLatticeCell(v, rows, cols) && g[v.row][v.col] == VISITED
    ensures UnvisitedNeighbors(g, v, rows, cols) == []
  {
    assert v !in [];
    assert Cell(v.row, v.col) == v;
  }

  lemma {:induction false} FirstRowVisited(g: Grid, rows: int, cols: int, c: int)
    requires IsRect(g, rows, cols) && rows >= 2 && Closed(g, rows, cols)
    requires 1 <= c < cols && c % 2 == 1 && g[1][1] == VISITED
    ensures g[1][c] == VISITED
    decreases c
  {
    if c > 1 {
      FirstRowVisited(g, rows, cols, c - 2);
      assert Candidate(Cell(1, c - 2), 0) == Cell(1, c);
    }
  }

  lemma {:induction false} ColumnVisited(g: Grid, rows: int, cols: int, c: int, r: int)
    requires IsRect(g, rows, cols) && Closed(g, rows, cols)
    requires 1 <= c < cols && c % 2 == 1
    requires 1 <= r < rows && r % 2 == 1 && g[1][1] == VISITED
    ensures g[r][c] == VISITED
    decreases r
  {
    if r == 1 {
      FirstRowVisited(g, rows, cols, c);
    } else {
      ColumnVisited(g, rows, cols, c, r - 2);
      assert Candidate(Cell(r - 2, c), 1) == Cell(r, c);
    }
  }

  /** The marker the reset loop leaves at (r, c). */
  function ResetMarker(ch: char, r: int, c: int): (m: char)
    ensures m == ch || (ch == VISITED && m == OPEN)
    ensures m == VISITED ==> !(r % 2 == 1 && c % 2 == 1)
  {
    if r % 2 == 1 && c % 2 == 1 && ch == VISITED then OPEN else ch
  }

  /** After carving and the reset of the visited markers: every lattice cell
      is open, and |lattice cells| - 1 walls were opened, as many as a tree
      over the lattice cells has edges. */
  lemma ResetAfterCarving(g: Grid, h: Grid, rows: int, cols: int)
    requires CarveInv(g, rows, cols, [])
    requires IsRect(h, rows, cols)
    requires forall r, c :: 0 <= r < rows && 0 <= c < cols ==> h[r][c] == ResetMarker(g[r][c], r, c)
    ensures forall r, c :: 0 <= r < rows && 0 <= c < cols ==> CarvedMarker(h[r][c], r, c, rows, cols)
    ensures |OpenWalls(h, rows, cols)| + 1 == |LatticeCells(rows, cols)|
  {
    CarveCoversLattice(g, rows, cols);
    ResetMarkers(g, h, rows, cols);
    ResetKeepsOpenWalls(g, h, rows, cols);
    VisitedIsLattice(g, rows, cols);
  }

  lemma ResetMarkers(g: Grid, h: Grid, rows: int, cols: int)
    requires OddDims(rows, cols) && Shape(g, rows, cols) && IsRect(h, rows, cols)
    requires forall r, c :: 0 <= r < rows && 0 <= c < cols && r % 2 == 1 && c % 2 == 1 ==> g[r][c] == VISITED
    requires forall r, c :: 0 <= r < rows && 0 <= c < cols ==> h[r][c] == ResetMarker(g[r][c], r, c)
    ensures forall r, c :: 0 <= r < rows && 0 <= c < cols ==> CarvedMarker(h[r][c], r, c, rows, cols)
  {
    forall r, c | 0 <= r < rows && 0 <= c < cols ensures CarvedMarker(h[r][c], r, c, rows, cols) {
      assert CarvingMarker(g[r][c], r, c, rows, cols);
    }
  }

  lemma ResetKeepsOpenWalls(g: Grid, h: Grid, rows: int, cols: int)
    requires IsRect(g, rows, cols) && IsRect(h, rows, cols)
    requires forall r, c :: 0 <= r < rows && 0 <= c < cols ==> h[r][c] == ResetMarker(g[r][c], r, c)
    ensures OpenWalls(h, rows, cols) == OpenWalls(g, rows, cols)
  {
    forall x ensures x in OpenWalls(h, rows, cols) <==> x in OpenWalls(g, rows, cols) {
      OpenWallsMembers(g, rows, cols, x);
      OpenWallsMembers(h, rows, cols, x);
      if 0 <= x.row < rows && 0 <= x.col < cols {
        assert h[x.row][x.col] == ResetMarker(g[x.row][x.col], x.row, x.col);
      }
    }
  }

  lemma VisitedIsLattice(g: Grid, rows: int, cols: int)
    requires OddDims(rows, cols) && Shape(g, rows, cols)
    requires forall r, c :: 0 <= r < rows && 0 <= c < cols && r % 2 == 1 && c % 2 == 1 ==> g[r][c] == VISITED
    ensures VisitedCells(g, rows, cols) == LatticeCells(rows, cols)
  {
    forall x ensures x in VisitedCells(g, rows, cols) <==> x in LatticeCells(rows, cols) {
      VisitedCellsMembers(g, rows, cols, x);
      LatticeCellsMembers(rows, cols, x);
      if 0 <= x.row < rows && 0 <= x.col < cols {
        assert CarvingMarker(g[x.row][x.col], x.row, x.col, rows, cols);
      }
    }
  }

  /** Writing the exit digits onto perimeter slots opens or closes no wall
      slot: the perimeter lies on the border. */
  lemma LabelsKeepOpenWalls(g: Grid, h: Grid, rows: int, cols: int, exits: seq<Cell>)
    requires IsRect(g, rows, cols) && IsRect(h, rows, cols)
    requires forall k :: 0 <= k < |exits| ==> IsPerimSlot(exits[k], rows, cols)
    requires forall r, c :: 0 <= r < rows && 0 <= c < cols && Cell(r, c) !in exits ==> h[r][c] == g[r][c]
    ensures OpenWalls(h, rows, cols) == OpenWalls(g, rows, cols)
  {
    forall x ensures x in OpenWalls(h, rows, cols) <==> x in OpenWalls(g, rows, cols) {
      OpenWallsMembers(g, rows, cols, x);
      OpenWallsMembers(h, rows, cols, x);
      if x in exits {
        var k :| 0 <= k < |exits| && exits[k] == x;
        assert !IsWallSlot(x.row, x.col, rows, cols);
      } else if 0 <= x.row < rows && 0 <= x.col < cols {
        assert Cell(x.row, x.col) == x;
      }
    }
  }
}
