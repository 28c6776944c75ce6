/** GenerateMaze's loop invariant and outcome, bundled so that the method
    needs one lemma per step. */
module Generation {
  import opened MazeGrid
  import opened Perimeter
  import opened Carving
  import opened Connectivity

  /** The invariant of the carving loop. On any grid the stack holds lattice
      cells; started from the lattice, the carving invariant and the tree
      bookkeeping hold as well. */
  ghost predicate DfsInv(g: Grid, rows: int, cols: int, stack: seq<Cell>, fromLattice: bool,
                         parent: map<Cell, Cell>, depth: map<Cell, nat>) {
    && IsRect(g, rows, cols)
    && (forall k :: 0 <= k < |stack| ==> IsLatticeCell(stack[k], rows, cols))
    && (fromLattice ==> CarveInv(g, rows, cols, stack) && Linked(g, rows, cols, parent, depth))
  }

  /** The depth map after the chosen cell becomes the child of the current one. */
  function NewDepth(depth: map<Cell, nat>, current: Cell, chosen: Cell): map<Cell, nat> {
    if current in depth then depth[chosen := depth[current] + 1] else depth
  }

  /** Whether GenerateMaze starts from InitializeMaze's lattice. */
  ghost predicate FromLattice(g: Grid, rows: int, cols: int) {
    OddDims(rows, cols) && g == LatticeGrid(rows, cols)
  }

  lemma DfsStart(g: Grid, rows: int, cols: int)
    requires IsRect(g, rows, cols) && rows >= 2 && cols >= 2
    ensures InGrid(g, Cell(1, 1))
    ensures DfsInv(Set(g, Cell(1, 1), VISITED), rows, cols, [Cell(1, 1)], FromLattice(g, rows, cols),
                   map[], map[Cell(1, 1) := 0])
  {
    if FromLattice(g, rows, cols) {
      CarveStart(rows, cols);
      LinkedStart(rows, cols);
    }
  }

  lemma DfsPop(g: Grid, rows: int, cols: int, rest: seq<Cell>, current: Cell, fromLattice: bool,
               parent: map<Cell, Cell>, depth: map<Cell, nat>)
    requires DfsInv(g, rows, cols, rest + [current], fromLattice, parent, depth)
    requires UnvisitedNeighbors(g, current, rows, cols) == []
    ensures DfsInv(g, rows, cols, rest, fromLattice, parent, depth)
  {
    forall k | 0 <= k < |rest| ensures IsLatticeCell(rest[k], rows, cols) {
      assert rest[k] == (rest + [current])[k];
    }
    if fromLattice {
      CarvePop(g, rows, cols, rest, current);
    }
  }

  lemma DfsPush(g: Grid, rows: int, cols: int, rest: seq<Cell>, current: Cell, chosen: Cell, fromLattice: bool,
                parent: map<Cell, Cell>, depth: map<Cell, nat>)
    requires DfsInv(g, rows, cols, rest + [current], fromLattice, parent, depth)
    requires chosen in UnvisitedNeighbors(g, current, rows, cols)
    ensures InGrid(g, Midpoint(current, chosen)) && InGrid(g, chosen)
    ensures DfsInv(Carve(g, current, chosen), rows, cols, rest + [current] + [chosen], fromLattice,
                   parent[chosen := current], NewDepth(depth, current, chosen))
    ensures UnvisitedCells(Carve(g, current, chosen), rows, cols) < UnvisitedCells(g, rows, cols)
  {
    StackPush(g, rows, cols, rest, current, chosen);
    if fromLattice {
      LatticePush(g, rows, cols, rest, current, chosen, parent, depth);
    }
  }

  /** The part of a push step that holds on any grid. */
  lemma StackPush(g: Grid, rows: int, cols: int, rest: seq<Cell>, current: Cell, chosen: Cell)
    requires IsRect(g, rows, cols)
    requires forall k :: 0 <= k < |rest + [current]| ==> IsLatticeCell((rest + [current])[k], rows, cols)
    requires chosen in UnvisitedNeighbors(g, current, rows, cols)
    ensures InGrid(g, Midpoint(current, chosen)) && InGrid(g, chosen)
    ensures IsRect(Carve(g, current, chosen), rows, cols)
    ensures forall k :: 0 <= k < |rest + [current] + [chosen]| ==>
              IsLatticeCell((rest + [current] + [chosen])[k], rows, cols)
    ensures UnvisitedCells(Carve(g, current, chosen), rows, cols) < UnvisitedCells(g, rows, cols)
  {
    var st := rest + [current];
    assert st[|rest|] == current;
    PushShrinks(g, rows, cols, current, chosen);
    CarveAt(g, rows, cols, current, chosen, 0, 0);
    var st' := st + [chosen];
    forall k | 0 <= k < |st'| ensures IsLatticeCell(st'[k], rows, cols) {
      if k < |st| {
        assert st'[k] == st[k];
      }
    }
  }

  /** The part of a push step that holds when carving started from the lattice. */
  lemma LatticePush(g: Grid, rows: int, cols: int, rest: seq<Cell>, current: Cell, chosen: Cell,
                    parent: map<Cell, Cell>, depth: map<Cell, nat>)
    requires CarveInv(g, rows, cols, rest + [current]) && Linked(g, rows, cols, parent, depth)
    requires chosen in UnvisitedNeighbors(g, current, rows, cols)
    ensures InGrid(g, Midpoint(current, chosen)) && InGrid(g, chosen)
    ensures CarveInv(Carve(g, current, chosen), rows, cols, rest + [current] + [chosen])
    ensures Linked(Carve(g, current, chosen), rows, cols, parent[chosen := current], NewDepth(depth, current, chosen))
  {
    assert (rest + [current])[|rest|] == current;
    CarvePush(g, rows, cols, rest, current, chosen);
    LinkedPush(g, rows, cols, parent, depth, current, chosen);
  }

  /** What GenerateMaze leaves when it starts from the lattice: every
      position that is not an exit holds its carved marker (lattice cells
      open, the border and the even-even positions walls), one wall fewer is
      open than there are lattice cells, and every lattice cell can be
      walked to from (1, 1). */
  ghost predicate PerfectMaze(g: Grid, rows: int, cols: int, exits: seq<Cell>) {
    && IsRect(g, rows, cols)
    && (forall r, c :: 0 <= r < rows && 0 <= c < cols && Cell(r, c) !in exits ==>
          CarvedMarker(g[r][c], r, c, rows, cols))
    && |OpenWalls(g, rows, cols)| + 1 == |LatticeCells(rows, cols)|
    && (forall v :: IsLatticeCell(v, rows, cols) ==> Reachable(g, rows, cols, v))
  }

  /** The carving, the reset and the exit labels together give a perfect maze. */
  lemma GenerateOutcome(carved: Grid, reset: Grid, final: Grid, rows: int, cols: int, exits: seq<Cell>,
                        parent: map<Cell, Cell>, depth: map<Cell, nat>)
    requires DfsInv(carved, rows, cols, [], true, parent, depth)
    requires IsRect(reset, rows, cols)
    requires forall r, c :: 0 <= r < rows && 0 <= c < cols ==> reset[r][c] == ResetMarker(carved[r][c], r, c)
    requires IsRect(final, rows, cols)
    requires forall k :: 0 <= k < |exits| ==> exits[k] in PerimPositions(rows, cols)
    requires forall r, c :: 0 <= r < rows && 0 <= c < cols && Cell(r, c) !in exits ==> final[r][c] == reset[r][c]
    ensures PerfectMaze(final, rows, cols, exits)
  {
    CarveCoversLattice(carved, rows, cols);
    AllReachable(carved, rows, cols, parent, depth);
    ResetAfterCarving(carved, reset, rows, cols);
    ResetKeepsOpenWalls(carved, reset, rows, cols);
    forall k | 0 <= k < |exits| ensures IsPerimSlot(exits[k], rows, cols) {
      PerimPositionsMembers(rows, cols, exits[k]);
    }
    LabelsKeepOpenWalls(reset, final, rows, cols, exits);
    forall v | IsLatticeCell(v, rows, cols) ensures Reachable(final, rows, cols, v) {
      ReachableTransfer(carved, final, rows, cols, v);
    }
  }
}
