/** Reachability between lattice cells through opened walls, and the
    bookkeeping that shows the depth-first carving reaches every cell. */
module Connectivity {
  import opened MazeGrid
  import opened Carving

  /** b is one of the four two-step moves from a. */
  predicate Adjacent(a: Cell, b: Cell) {
    b == Candidate(a, 0) || b == Candidate(a, 1) || b == Candidate(a, 2) || b == Candidate(a, 3)
  }

  /** Two adjacent lattice cells with the wall slot between them open. */
  predicate Joined(g: Grid, rows: int, cols: int, a: Cell, b: Cell) {
    var m := Midpoint(a, b);
    IsLatticeCell(a, rows, cols) && IsLatticeCell(b, rows, cols) && Adjacent(a, b) &&
    IsWallSlot(m.row, m.col, rows, cols) && InGrid(g, m) && At(g, m) == OPEN
  }

  /** A walk through the maze: each step crosses an open wall slot. */
  ghost predicate IsPath(g: Grid, rows: int, cols: int, p: seq<Cell>) {
    |p| > 0 && forall k :: 0 <= k < |p| - 1 ==> Joined(g, rows, cols, p[k], p[k + 1])
  }

  /** v can be walked to from the start cell (1, 1). */
  ghost predicate Reachable(g: Grid, rows: int, cols: int, v: Cell) {
    exists p :: IsPath(g, rows, cols, p) && p[0] == Cell(1, 1) && p[|p| - 1] == v
  }

  /** The condition Linked asks of one visited lattice cell. */
  ghost predicate LinkedAt(g: Grid, rows: int, cols: int, parent: map<Cell, Cell>, depth: map<Cell, nat>, v: Cell)
    requires IsRect(g, rows, cols)
  {
    && v in depth
    && (v != Cell(1, 1) ==>
          && v in parent
          && IsLatticeCell(parent[v], rows, cols) && At(g, parent[v]) == VISITED
          && parent[v] in depth && depth[parent[v]] < depth[v]
          && Joined(g, rows, cols, parent[v], v))
  }

  /** The carving's spanning tree so far: every visited lattice cell other
      than the start has a visited parent of smaller depth, joined to it by
      an open wall. */
  ghost predicate Linked(g: Grid, rows: int, cols: int, parent: map<Cell, Cell>, depth: map<Cell, nat>)
    requires IsRect(g, rows, cols)
  {
    forall v :: IsLatticeCell(v, rows, cols) && At(g, v) == VISITED ==> LinkedAt(g, rows, cols, parent, depth, v)
  }

  lemma LinkedStart(rows: int, cols: int)
    requires OddDims(rows, cols)
    ensures InGrid(LatticeGrid(rows, cols), Cell(1, 1))
    ensures var g := Set(LatticeGrid(rows, cols), Cell(1, 1), VISITED);
            IsRect(g, rows, cols) && Linked(g, rows, cols, map[], map[Cell(1, 1) := 0])
  {
    var g0 := LatticeGrid(rows, cols);
    var g := Set(g0, Cell(1, 1), VISITED);
    forall v | IsLatticeCell(v, rows, cols) && At(g, v) == VISITED ensures v == Cell(1, 1) {
    }
  }

  /** One push step extends the tree by the chosen cell, child of the current one. */
  lemma LinkedPush(g: Grid, rows: int, cols: int, parent: map<Cell, Cell>, depth: map<Cell, nat>,
                   current: Cell, chosen: Cell)
    requires OddDims(rows, cols) && IsRect(g, rows, cols) && Linked(g, rows, cols, parent, depth)
    requires IsLatticeCell(current, rows, cols) && At(g, current) == VISITED
    requires chosen in UnvisitedNeighbors(g, current, rows, cols)
    ensures current in depth && InGrid(g, Midpoint(current, chosen)) && InGrid(g, chosen)
    ensures Linked(Carve(g, current, chosen), rows, cols,
                   parent[chosen := current], depth[chosen := depth[current] + 1])
  {
    LinkedPushChosen(g, rows, cols, current, chosen);
    var h := Carve(g, current, chosen);
    forall v | IsLatticeCell(v, rows, cols) && At(h, v) == VISITED
      ensures LinkedAt(h, rows, cols, parent[chosen := current], depth[chosen := depth[current] + 1], v)
    {
      LinkedPushAt(g, rows, cols, parent, depth, current, chosen, v);
    }
  }

  lemma LinkedPushAt(g: Grid, rows: int, cols: int, parent: map<Cell, Cell>, depth: map<Cell, nat>,
                     current: Cell, chosen: Cell, v: Cell)
    requires OddDims(rows, cols) && IsRect(g, rows, cols) && Linked(g, rows, cols, parent, depth)
    requires IsLatticeCell(current, rows, cols) && At(g, current) == VISITED
    requires chosen in UnvisitedNeighbors(g, current, rows, cols)
    requires InGrid(g, Midpoint(current, chosen)) && InGrid(g, chosen)
    requires IsRect(Carve(g, current, chosen), rows, cols)
    requires IsLatticeCell(v, rows, cols) && At(Carve(g, current, chosen), v) == VISITED
    ensures current in depth
    ensures LinkedAt(Carve(g, current, chosen), rows, cols, parent[chosen := current],
                     depth[chosen := depth[current] + 1], v)
  {
    if v == chosen {
      LinkedPushChosen(g, rows, cols, current, chosen);
    } else {
      LinkedPushOther(g, rows, cols, parent, depth, current, chosen, v);
    }
  }

  lemma LinkedPushChosen(g: Grid, rows: int, cols: int, current: Cell, chosen: Cell)
    requires OddDims(rows, cols) && IsRect(g, rows, cols)
    requires IsLatticeCell(current, rows, cols) && At(g, current) == VISITED
    requires chosen in UnvisitedNeighbors(g, current, rows, cols)
    ensures InGrid(g, Midpoint(current, chosen)) && InGrid(g, chosen)
    ensures IsRect(Carve(g, current, chosen), rows, cols)
    ensures At(Carve(g, current, chosen), current) == VISITED
    ensures Joined(Carve(g, current, chosen), rows, cols, current, chosen)
  {
    ChosenGeometry(g, rows, cols, current, chosen);
    UnvisitedNeighborsMember(g, current, rows, cols, chosen);
    var m := Midpoint(current, chosen);
    CarveAt(g, rows, cols, current, chosen, current.row, current.col);
    CarveAt(g, rows, cols, current, chosen, m.row, m.col);
  }

  lemma LinkedPushOther(g: Grid, rows: int, cols: int, parent: map<Cell, Cell>, depth: map<Cell, nat>,
                        current: Cell, chosen: Cell, v: Cell)
    requires OddDims(rows, cols) && IsRect(g, rows, cols) && Linked(g, rows, cols, parent, depth)
    requires IsLatticeCell(current, rows, cols) && At(g, current) == VISITED
    requires chosen in UnvisitedNeighbors(g, current, rows, cols)
    requires InGrid(g, Midpoint(current, chosen)) && InGrid(g, chosen)
    requires IsLatticeCell(v, rows, cols) && v != chosen
    requires At(Carve(g, current, chosen), v) == VISITED
    ensures At(g, v) == VISITED && v in depth
    ensures v != Cell(1, 1) ==>
              && v in parent && parent[v] != chosen
              && IsLatticeCell(parent[v], rows, cols) && At(Carve(g, current, chosen), parent[v]) == VISITED
              && parent[v] in depth && depth[parent[v]] < depth[v]
              && Joined(Carve(g, current, chosen), rows, cols, parent[v], v)
  {
    ChosenGeometry(g, rows, cols, current, chosen);
    var m := Midpoint(current, chosen);
    CarveAt(g, rows, cols, current, chosen, v.row, v.col);
    assert v != m;
    if v != Cell(1, 1) {
      var u := parent[v];
      var mu := Midpoint(u, v);
      CarveAt(g, rows, cols, current, chosen, u.row, u.col);
      CarveAt(g, rows, cols, current, chosen, mu.row, mu.col);
      assert u != chosen && u != m;
      assert mu != chosen;
    }
  }

  lemma {:induction false} ReachByDepth(g: Grid, rows: int, cols: int, parent: map<Cell, Cell>, depth: map<Cell, nat>, v: Cell)
    requires IsRect(g, rows, cols) && Linked(g, rows, cols, parent, depth)
    requires IsLatticeCell(v, rows, cols) && At(g, v) == VISITED
    ensures Reachable(g, rows, cols, v)
    decreases if v in depth then depth[v] else 0
  {
    if v == Cell(1, 1) {
      assert IsPath(g, rows, cols, [v]);
    } else {
      var u := parent[v];
      ReachByDepth(g, rows, cols, parent, depth, u);
      var p :| IsPath(g, rows, cols, p) && p[0] == Cell(1, 1) && p[|p| - 1] == u;
      var q := p + [v];
      forall k | 0 <= k < |q| - 1 ensures Joined(g, rows, cols, q[k], q[k + 1]) {
        if k < |p| - 1 {
          assert q[k] == p[k] && q[k + 1] == p[k + 1];
        } else {
          assert q[k] == u && q[k + 1] == v;
        }
      }
      assert IsPath(g, rows, cols, q) && q[0] == Cell(1, 1) && q[|q| - 1] == v;
    }
  }

  /** When every lattice cell is visited, the tree reaches all of them. */
  lemma AllReachable(g: Grid, rows: int, cols: int, parent: map<Cell, Cell>, depth: map<Cell, nat>)
    requires IsRect(g, rows, cols) && Linked(g, rows, cols, parent, depth)
    requires forall r, c :: 0 <= r < rows && 0 <= c < cols && r % 2 == 1 && c % 2 == 1 ==> g[r][c] == VISITED
    ensures forall v :: IsLatticeCell(v, rows, cols) ==> Reachable(g, rows, cols, v)
  {
    forall v | IsLatticeCell(v, rows, cols) ensures Reachable(g, rows, cols, v) {
      ReachByDepth(g, rows, cols, parent, depth, v);
    }
  }

  /** Reachability depends only on which wall slots are open. */
  lemma ReachableTransfer(g: Grid, h: Grid, rows: int, cols: int, v: Cell)
    requires IsRect(g, rows, cols) && IsRect(h, rows, cols)
    requires OpenWalls(g, rows, cols) == OpenWalls(h, rows, cols)
    requires Reachable(g, rows, cols, v)
    ensures Reachable(h, rows, cols, v)
  {
    var p :| IsPath(g, rows, cols, p) && p[0] == Cell(1, 1) && p[|p| - 1] == v;
    forall k | 0 <= k < |p| - 1 ensures Joined(h, rows, cols, p[k], p[k + 1]) {
      var m := Midpoint(p[k], p[k + 1]);
      OpenWallsMembers(g, rows, cols, m);
      OpenWallsMembers(h, rows, cols, m);
    }
    assert IsPath(h, rows, cols, p);
  }
}
