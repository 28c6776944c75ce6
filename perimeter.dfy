/** The perimeter positions from which GetRandPerimPoints draws the exits. */
module Perimeter {
  import opened MazeGrid

  /** The number of odd values in [1, n). */
  function OddCount(n: int): nat {
    if n <= 0 then 0 else n / 2
  }

  /** First loop: for each odd column, the top-row cell, then the bottom-row cell. */
  function TopBottom(rows: int, cols: int): seq<Cell> {
    seq(2 * OddCount(cols), k => Cell(if k % 2 == 0 then 0 else rows - 1, 2 * (k / 2) + 1))
  }

  /** Second loop: for each odd row, the left-column cell, then the right-column cell. */
  function LeftRight(rows: int, cols: int): seq<Cell> {
    seq(2 * OddCount(rows), k => Cell(2 * (k / 2) + 1, if k % 2 == 0 then 0 else cols - 1))
  }

  /** The list perimPositions, in the order the C++ game mode builds it. */
  function PerimPositions(rows: int, cols: int): (ps: seq<Cell>)
    ensures |ps| == 2 * OddCount(cols) + 2 * OddCount(rows)
    ensures forall k :: 0 <= k < |ps| ==> IsPerimSlot(ps[k], rows, cols)
  {
    TopBottom(rows, cols) + LeftRight(rows, cols)
  }

  /** A border cell whose other coordinate is odd: the only kind of cell an exit may take. */
  predicate IsPerimSlot(c: Cell, rows: int, cols: int) {
    || ((c.row == 0 || c.row == rows - 1) && 1 <= c.col < cols && c.col % 2 == 1)
    || ((c.col == 0 || c.col == cols - 1) && 1 <= c.row < rows && c.row % 2 == 1)
  }

  /** The list holds exactly the perimeter slots, whatever the dimensions. */
  lemma PerimPositionsMembers(rows: int, cols: int, c: Cell)
    ensures c in PerimPositions(rows, cols) <==> IsPerimSlot(c, rows, cols)
  {
    TopBottomMembers(rows, cols, c);
    LeftRightMembers(rows, cols, c);
  }

  /** On a grid of the given dimensions every listed position is in range. */
  lemma PerimInGrid(g: Grid, rows: int, cols: int, cells: seq<Cell>)
    requires IsRect(g, rows, cols) && rows >= 1 && cols >= 1
    requires forall k :: 0 <= k < |cells| ==> cells[k] in PerimPositions(rows, cols)
    ensures forall k :: 0 <= k < |cells| ==> InGrid(g, cells[k])
  {
    forall k | 0 <= k < |cells| ensures InGrid(g, cells[k]) {
      PerimPositionsMembers(rows, cols, cells[k]);
    }
  }

  lemma TopBottomMembers(rows: int, cols: int, c: Cell)
    ensures c in TopBottom(rows, cols) <==> (c.row == 0 || c.row == rows - 1) && 1 <= c.col < cols && c.col % 2 == 1
  {
    var tb := TopBottom(rows, cols);
    if c in tb {
      var k :| 0 <= k < |tb| && tb[k] == c;
      assert 2 * (k / 2) + 1 < cols;
    }
    if (c.row == 0 || c.row == rows - 1) && 1 <= c.col < cols && c.col % 2 == 1 {
      var k := if c.row == 0 then c.col - 1 else c.col;
      assert tb[k] == c;
    }
  }

  lemma LeftRightMembers(rows: int, cols: int, c: Cell)
    ensures c in LeftRight(rows, cols) <==> (c.col == 0 || c.col == cols - 1) && 1 <= c.row < rows && c.row % 2 == 1
  {
    var lr := LeftRight(rows, cols);
    if c in lr {
      var k :| 0 <= k < |lr| && lr[k] == c;
      assert 2 * (k / 2) + 1 < rows;
    }
    if (c.col == 0 || c.col == cols - 1) && 1 <= c.row < rows && c.row % 2 == 1 {
      var k := if c.col == 0 then c.row - 1 else c.row;
      assert lr[k] == c;
    }
  }

  /** For odd dimensions of at least 3 the list has (cols - 1) + (rows - 1)
      entries, no two equal. */
  lemma {:induction false} PerimPositionsDistinct(rows: int, cols: int)
    requires OddDims(rows, cols)
    ensures |PerimPositions(rows, cols)| == (cols - 1) + (rows - 1)
    ensures forall a, b :: 0 <= a < b < |PerimPositions(rows, cols)| ==>
              PerimPositions(rows, cols)[a] != PerimPositions(rows, cols)[b]
  {
    var p, tb, lr := PerimPositions(rows, cols), TopBottom(rows, cols), LeftRight(rows, cols);
    forall a, b | 0 <= a < b < |p| ensures p[a] != p[b] {
      if b < |tb| {
        assert p[a] == tb[a] && p[b] == tb[b];
      } else if a >= |tb| {
        assert p[a] == lr[a - |tb|] && p[b] == lr[b - |tb|];
      } else {
        // a top or bottom cell has an odd column; a left or right cell an even one
        assert p[a] == tb[a] && p[b] == lr[b - |tb|];
        assert p[a].col % 2 == 1;
        assert p[b].col == 0 || p[b].col == cols - 1;
      }
    }
  }

  /** With at least two rows and two columns there are at least four entries,
      though not necessarily four different cells. */
  lemma PerimCountAtLeast(rows: int, cols: int)
    requires rows >= 2 && cols >= 2
    ensures |PerimPositions(rows, cols)| >= 4
  {
  }

  /** On a 2 x 2 grid the list has four entries but only three different
      cells, (1, 1) appearing twice: no run of distinct draws from it is
      longer than three, so a loop waiting for min(4, 4) of them never ends. */
  lemma TwoByTwoExitsAtMostThree(drawn: seq<Cell>)
    requires forall k :: 0 <= k < |drawn| ==> drawn[k] in PerimPositions(2, 2)
    requires forall a, b :: 0 <= a < b < |drawn| ==> drawn[a] != drawn[b]
    ensures PerimPositions(2, 2) == [Cell(0, 1), Cell(1, 1), Cell(1, 0), Cell(1, 1)]
    ensures |drawn| <= 3
  {
    var p := PerimPositions(2, 2);
    assert p == [Cell(0, 1), Cell(1, 1), Cell(1, 0), Cell(1, 1)];
    var s := {Cell(0, 1), Cell(1, 1), Cell(1, 0)};
    forall k | 0 <= k < |drawn| ensures drawn[k] in s {
      assert drawn[k] in p;
    }
    DistinctWithin(drawn, s);
  }

  /** A list of distinct cells drawn from a set is no longer than the set. */
  lemma {:induction false} DistinctWithin(xs: seq<Cell>, s: set<Cell>)
    requires forall k :: 0 <= k < |xs| ==> xs[k] in s
    requires forall a, b :: 0 <= a < b < |xs| ==> xs[a] != xs[b]
    ensures |xs| <= |s|
    decreases |xs|
  {
    if xs != [] {
      var rest, t := xs[1..], s - {xs[0]};
      forall k | 0 <= k < |rest| ensures rest[k] in t {
        assert rest[k] == xs[k + 1] && xs[k + 1] != xs[0];
      }
      forall a, b | 0 <= a < b < |rest| ensures rest[a] != rest[b] {
        assert rest[a] == xs[a + 1] && rest[b] == xs[b + 1];
      }
      DistinctWithin(rest, t);
    }
  }
}
