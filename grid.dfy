/** The maze grid of the game mode: a rectangle of cell markers indexed
    [row][column], and the read-only queries the generator makes of it. */
module MazeGrid {

  /** A grid position. The first component (the pair's Key) is the row,
      the second (its Value) the column. */
  datatype Cell = Cell(row: int, col: int)

  /** The maze: one sequence of markers per row. */
  type Grid = seq<seq<char>>

  const WALL: char := '#'
  const OPEN: char := ' '
  const VISITED: char := 'V'

  /** The dimensions the generator is meant for: both odd and at least 3. */
  predicate OddDims(rows: int, cols: int) {
    rows >= 3 && cols >= 3 && rows % 2 == 1 && cols % 2 == 1
  }

  /** g has exactly `rows` rows of `cols` markers each. */
  predicate IsRect(g: Grid, rows: int, cols: int) {
    |g| == rows && forall i :: 0 <= i < |g| ==> |g[i]| == cols
  }

  /** Every read g[row][col] with 1 <= row < rows and 1 <= col < cols is in bounds. */
  predicate Readable(g: Grid, rows: int, cols: int) {
    rows <= 1 || (rows <= |g| && forall i :: 1 <= i < rows ==> cols <= |g[i]|)
  }

  predicate InGrid(g: Grid, c: Cell) {
    0 <= c.row < |g| && 0 <= c.col < |g[c.row]|
  }

  function At(g: Grid, c: Cell): char
    requires InGrid(g, c)
  {
    g[c.row][c.col]
  }

  /** g with the marker at c replaced by ch; nothing else changes. */
  function Set(g: Grid, c: Cell, ch: char): (r: Grid)
    requires InGrid(g, c)
    ensures |r| == |g| && forall i :: 0 <= i < |g| ==> |r[i]| == |g[i]|
    ensures forall i, j :: 0 <= i < |g| && 0 <= j < |g[i]| ==>
              r[i][j] == if i == c.row && j == c.col then ch else g[i][j]
  {
    g[c.row := g[c.row][c.col := ch]]
  }

  /** IsValidCell: (row, col) lies in [1, rows) x [1, cols) and still holds the
      unvisited marker. The lower bound is 1, not 0. */
  predicate IsValidCell(g: Grid, row: int, col: int, rows: int, cols: int): (valid: bool)
    requires Readable(g, rows, cols)
    ensures valid ==> InGrid(g, Cell(row, col)) && At(g, Cell(row, col)) == OPEN
    ensures row == 0 || col == 0 ==> !valid
  {
    row >= 1 && row < rows && col >= 1 && col < cols && g[row][col] == OPEN
  }

  /** The four two-step moves, in the order GetUnvisitedNeighbors tries them. */
  const Directions: seq<(int, int)> := [(0, 2), (2, 0), (0, -2), (-2, 0)]

  /** The cell two steps from c in direction d. */
  function Candidate(c: Cell, d: int): Cell
    requires 0 <= d < 4
  {
    Cell(c.row + Directions[d].0, c.col + Directions[d].1)
  }

  function KeepIfValid(g: Grid, c: Cell, d: int, rows: int, cols: int): seq<Cell>
    requires Readable(g, rows, cols) && 0 <= d < 4
  {
    var n := Candidate(c, d);
    if IsValidCell(g, n.row, n.col, rows, cols) then [n] else []
  }

  /** The neighbours found by trying the first d directions. */
  function NeighborsBefore(g: Grid, c: Cell, rows: int, cols: int, d: int): seq<Cell>
    requires Readable(g, rows, cols) && 0 <= d <= 4
  {
    if d == 0 then [] else NeighborsBefore(g, c, rows, cols, d - 1) + KeepIfValid(g, c, d - 1, rows, cols)
  }

  /** Each of r's cells is valid and the candidate of a direction below d. */
  ghost predicate NeighborsFrom(g: Grid, c: Cell, rows: int, cols: int, d: int, r: seq<Cell>)
    requires Readable(g, rows, cols) && 0 <= d <= 4
  {
    forall k :: 0 <= k < |r| ==>
      IsValidCell(g, r[k].row, r[k].col, rows, cols) &&
      exists e :: 0 <= e < d && r[k] == Candidate(c, e)
  }

  /** r lists the candidates of c in direction order. */
  ghost predicate InDirectionOrder(c: Cell, r: seq<Cell>) {
    forall a, b, da, db ::
      (0 <= a < b < |r| && 0 <= da < 4 && 0 <= db < 4 &&
       r[a] == Candidate(c, da) && r[b] == Candidate(c, db)) ==> da < db
  }

  /** What the first d tries yield: at most d cells, each a valid candidate of a
      direction below d, every such candidate, and in direction order. */
  ghost predicate NeighborsFacts(g: Grid, c: Cell, rows: int, cols: int, d: int, r: seq<Cell>)
    requires Readable(g, rows, cols) && 0 <= d <= 4
  {
    && |r| <= d
    && NeighborsFrom(g, c, rows, cols, d, r)
    && (forall e :: 0 <= e < d && IsValidCell(g, Candidate(c, e).row, Candidate(c, e).col, rows, cols) ==>
          Candidate(c, e) in r)
    && InDirectionOrder(c, r)
  }

  lemma {:induction false} NeighborsBeforeFacts(g: Grid, c: Cell, rows: int, cols: int, d: int)
    requires Readable(g, rows, cols) && 0 <= d <= 4
    ensures NeighborsFacts(g, c, rows, cols, d, NeighborsBefore(g, c, rows, cols, d))
  {
    if d > 0 {
      NeighborsBeforeFacts(g, c, rows, cols, d - 1);
      var prev := NeighborsBefore(g, c, rows, cols, d - 1);
      var n := Candidate(c, d - 1);
      if IsValidCell(g, n.row, n.col, rows, cols) {
        assert NeighborsBefore(g, c, rows, cols, d) == prev + [n];
        NeighborsAppend(g, c, rows, cols, d, prev);
      } else {
        assert NeighborsBefore(g, c, rows, cols, d) == prev + [];
        assert prev + [] == prev;
        NeighborsSkip(g, c, rows, cols, d, prev);
      }
    }
  }

  lemma NeighborsSkip(g: Grid, c: Cell, rows: int, cols: int, d: int, prev: seq<Cell>)
    requires Readable(g, rows, cols) && 0 < d <= 4
    requires NeighborsFacts(g, c, rows, cols, d - 1, prev)
    requires !IsValidCell(g, Candidate(c, d - 1).row, Candidate(c, d - 1).col, rows, cols)
    ensures NeighborsFacts(g, c, rows, cols, d, prev)
  {
  }

  /** Distinct directions lead to distinct candidates. */
  lemma CandidateInjective(c: Cell, e: int, d: int)
    requires 0 <= e < 4 && 0 <= d < 4 && Candidate(c, e) == Candidate(c, d)
    ensures e == d
  {
  }

  lemma NeighborsAppend(g: Grid, c: Cell, rows: int, cols: int, d: int, prev: seq<Cell>)
    requires Readable(g, rows, cols) && 0 < d <= 4
    requires NeighborsFacts(g, c, rows, cols, d - 1, prev)
    requires IsValidCell(g, Candidate(c, d - 1).row, Candidate(c, d - 1).col, rows, cols)
    ensures NeighborsFacts(g, c, rows, cols, d, prev + [Candidate(c, d - 1)])
  {
    AppendInOrder(g, c, rows, cols, d, prev);
    AppendFrom(g, c, rows, cols, d, prev);
  }

  lemma AppendInOrder(g: Grid, c: Cell, rows: int, cols: int, d: int, prev: seq<Cell>)
    requires Readable(g, rows, cols) && 0 < d <= 4
    requires NeighborsFrom(g, c, rows, cols, d - 1, prev) && InDirectionOrder(c, prev)
    ensures InDirectionOrder(c, prev + [Candidate(c, d - 1)])
  {
    var r := prev + [Candidate(c, d - 1)];
    forall a, b, da, db |
      0 <= a < b < |r| && 0 <= da < 4 && 0 <= db < 4 &&
      r[a] == Candidate(c, da) && r[b] == Candidate(c, db)
      ensures da < db
    {
      if b == |prev| {
        CandidateInjective(c, db, d - 1);
        assert r[a] == prev[a];
        var e :| 0 <= e < d - 1 && prev[a] == Candidate(c, e);
        CandidateInjective(c, e, da);
      } else {
        assert r[a] == prev[a] && r[b] == prev[b];
      }
    }
  }

  lemma AppendFrom(g: Grid, c: Cell, rows: int, cols: int, d: int, prev: seq<Cell>)
    requires Readable(g, rows, cols) && 0 < d <= 4
    requires NeighborsFrom(g, c, rows, cols, d - 1, prev)
    requires IsValidCell(g, Candidate(c, d - 1).row, Candidate(c, d - 1).col, rows, cols)
    ensures NeighborsFrom(g, c, rows, cols, d, prev + [Candidate(c, d - 1)])
  {
    var r := prev + [Candidate(c, d - 1)];
    forall k | 0 <= k < |r|
      ensures IsValidCell(g, r[k].row, r[k].col, rows, cols) && exists e :: 0 <= e < d && r[k] == Candidate(c, e)
    {
      if k == |prev| {
        assert r[k] == Candidate(c, d - 1);
      } else {
        assert r[k] == prev[k];
      }
    }
  }

  /** GetUnvisitedNeighbors: the cells two steps away from c, in direction order,
      that are valid and unvisited. */
  function UnvisitedNeighbors(g: Grid, c: Cell, rows: int, cols: int): (r: seq<Cell>)
    requires Readable(g, rows, cols)
    ensures |r| <= 4
    ensures forall k :: 0 <= k < |r| ==>
              IsValidCell(g, r[k].row, r[k].col, rows, cols) &&
              exists d :: 0 <= d < 4 && r[k] == Candidate(c, d)
    ensures forall d :: 0 <= d < 4 && IsValidCell(g, Candidate(c, d).row, Candidate(c, d).col, rows, cols) ==>
              Candidate(c, d) in r
    ensures forall a, b, da, db ::
              (0 <= a < b < |r| && 0 <= da < 4 && 0 <= db < 4 &&
               r[a] == Candidate(c, da) && r[b] == Candidate(c, db)) ==> da < db
  {
    NeighborsBeforeFacts(g, c, rows, cols, 4);
    NeighborsBefore(g, c, rows, cols, 4)
  }

  /** Membership in the neighbour list, direction by direction. */
  lemma UnvisitedNeighborsMember(g: Grid, c: Cell, rows: int, cols: int, n: Cell)
    requires Readable(g, rows, cols)
    ensures n in UnvisitedNeighbors(g, c, rows, cols) <==>
              IsValidCell(g, n.row, n.col, rows, cols) &&
              (n == Candidate(c, 0) || n == Candidate(c, 1) || n == Candidate(c, 2) || n == Candidate(c, 3))
  {
    var r := UnvisitedNeighbors(g, c, rows, cols);
    if n in r {
      var k :| 0 <= k < |r| && r[k] == n;
      var d :| 0 <= d < 4 && r[k] == Candidate(c, d);
      assert d == 0 || d == 1 || d == 2 || d == 3;
    }
  }

  /** Halving that rounds toward zero, as C++ integer division does. */
  function Half(x: int): int {
    if x >= 0 then x / 2 else -((-x) / 2)
  }

  /** The wall cell RemoveWall opens between a and b. */
  function Midpoint(a: Cell, b: Cell): Cell {
    Cell(Half(a.row + b.row), Half(a.col + b.col))
  }

  /** A loop bound that runs zero times for a negative count. */
  function Extent(n: int): nat {
    if n < 0 then 0 else n
  }

  /** The grid InitializeMaze builds: open where row and column are both odd,
      a wall everywhere else. */
  function LatticeGrid(rows: int, cols: int): (g: seq<seq<char>>)
    ensures IsRect(g, Extent(rows), Extent(cols))
    ensures forall i, j :: 0 <= i < Extent(rows) && 0 <= j < Extent(cols) ==>
              (g[i][j] == OPEN <==> i % 2 == 1 && j % 2 == 1) && (g[i][j] == OPEN || g[i][j] == WALL)
  {
    seq(Extent(rows), i => seq(Extent(cols), j => if i % 2 != 0 && j % 2 != 0 then OPEN else WALL))
  }

}
