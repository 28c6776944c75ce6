/** What SpawnMaze asks the world to place, as a row-major list of events. */
module LevelBuilder {
  import opened MazeGrid
  import opened Classifier

  /** One placement: an obstruction block, a path tile with its wall bitmask,
      the player character, or a door with its yaw in degrees. */
  datatype Event =
    | Obstruction(at: Cell)
    | Path(at: Cell, wallMask: int)
    | Player(at: Cell)
    | Door(at: Cell, yaw: int)

  /** The markers SpawnMaze acts on; any other marker places nothing. */
  predicate IsSpawnMarker(ch: char) {
    ch == WALL || ch == OPEN || ('0' <= ch <= '9')
  }

  /** The events of one grid position, following the if-chain of SpawnMaze;
      a path tile carries CalculateWallTileType (SpawnPathAtGridLoc) and a
      door CalculateRotation (SpawnDoorAtGridLoc). */
  function CellEvents(g: Grid, i: int, j: int): (es: seq<Event>)
    requires IsSquare(g) && 0 <= i < |g| && 0 <= j < |g|
    ensures |es| <= 2
    ensures forall k :: 0 <= k < |es| ==> es[k].at == Cell(i, j)
    ensures es == [] <==> !IsSpawnMarker(g[i][j])
  {
    var ch := g[i][j];
    var here := Cell(i, j);
    if ch == WALL then [Obstruction(here)]
    else if ch == OPEN then [Path(here, WallTileType(g, i, j))]
    else if ch == '0' then [Path(here, WallTileType(g, i, j)), Player(here)]
    else if '1' <= ch <= '9' then [Path(here, WallTileType(g, i, j)), Door(here, Rotation(g, i, j))]
    else []
  }

  /** The events of row i from column j on. */
  function RowEvents(g: Grid, i: int, j: int): seq<Event>
    requires IsSquare(g) && 0 <= i < |g| && 0 <= j <= |g[i]|
    decreases |g[i]| - j
  {
    if j == |g[i]| then [] else CellEvents(g, i, j) + RowEvents(g, i, j + 1)
  }

  /** The events of the rows from i on. */
  function RowsEvents(g: Grid, i: int): seq<Event>
    requires IsSquare(g) && 0 <= i <= |g|
    decreases |g| - i
  {
    if i == |g| then [] else RowEvents(g, i, 0) + RowsEvents(g, i + 1)
  }

  /** All the events of SpawnMaze, in the order it issues them. */
  function SpawnEvents(g: Grid): (es: seq<Event>)
    requires IsSquare(g)
    ensures forall a, b :: 0 <= a < b < |es| ==> RowMajorLe(es[a].at, es[b].at)
    ensures forall a, b :: 0 <= a < b < |es| ==> es[a] != es[b]
  {
    RowsEventsOrdered(g, 0);
    RowsNoRepeats(g, 0);
    RowsEvents(g, 0)
  }

  /** One more row of the row-major walk: what is issued so far, then the
      remaining rows, is always the whole walk. */
  lemma RowsStep(g: Grid, i: int, done: seq<Event>, row: seq<Event>)
    requires IsSquare(g) && 0 <= i < |g|
    requires done + RowsEvents(g, i) == SpawnEvents(g)
    requires row == RowEvents(g, i, 0)
    ensures (done + row) + RowsEvents(g, i + 1) == SpawnEvents(g)
  {
    assert RowsEvents(g, i) == row + RowsEvents(g, i + 1);
    ConcatAssoc(done, row, RowsEvents(g, i + 1));
  }

  /** One more position of a row. */
  lemma RowStep(g: Grid, i: int, j: int, done: seq<Event>, cell: seq<Event>)
    requires IsSquare(g) && 0 <= i < |g| && 0 <= j < |g[i]|
    requires done + RowEvents(g, i, j) == RowEvents(g, i, 0)
    requires cell == CellEvents(g, i, j)
    ensures (done + cell) + RowEvents(g, i, j + 1) == RowEvents(g, i, 0)
  {
    assert RowEvents(g, i, j) == cell + RowEvents(g, i, j + 1);
    ConcatAssoc(done, cell, RowEvents(g, i, j + 1));
  }

  lemma InConcat(e: Event, xs: seq<Event>, ys: seq<Event>)
    ensures e in xs + ys <==> e in xs || e in ys
  {
  }

  lemma ConcatAssoc(a: seq<Event>, b: seq<Event>, c: seq<Event>)
    ensures a + (b + c) == (a + b) + c
  {
  }

  lemma {:induction false} RowEventsMembers(g: Grid, i: int, j: int, e: Event)
    requires IsSquare(g) && 0 <= i < |g| && 0 <= j <= |g|
    ensures e in RowEvents(g, i, j) <==> e.at.row == i && j <= e.at.col < |g| && e in CellEvents(g, i, e.at.col)
    decreases |g| - j
  {
    if j < |g| {
      var here, rest := CellEvents(g, i, j), RowEvents(g, i, j + 1);
      assert RowEvents(g, i, j) == here + rest;
      RowEventsMembers(g, i, j + 1, e);
      InConcat(e, here, rest);
      if e.at == Cell(i, j) {
        assert e !in rest;
      }
    }
  }

  lemma {:induction false} RowsEventsMembers(g: Grid, i: int, e: Event)
    requires IsSquare(g) && 0 <= i <= |g|
    ensures e in RowsEvents(g, i) <==>
              i <= e.at.row < |g| && 0 <= e.at.col < |g| && e in CellEvents(g, e.at.row, e.at.col)
    decreases |g| - i
  {
    if i < |g| {
      var row, rest := RowEvents(g, i, 0), RowsEvents(g, i + 1);
      assert RowsEvents(g, i) == row + rest;
      RowEventsMembers(g, i, 0, e);
      RowsEventsMembers(g, i + 1, e);
      InConcat(e, row, rest);
      if e.at.row == i {
        assert e !in rest;
        assert e in RowsEvents(g, i) <==> e in row;
      } else {
        assert e !in row;
        assert e in RowsEvents(g, i) <==> e in rest;
      }
    } else {
      assert RowsEvents(g, i) == [];
    }
  }

  /** An event is issued exactly when it is one of its own position's events. */
  lemma SpawnEventsMembers(g: Grid, e: Event)
    requires IsSquare(g)
    ensures e in SpawnEvents(g) <==>
              0 <= e.at.row < |g| && 0 <= e.at.col < |g| && e in CellEvents(g, e.at.row, e.at.col)
  {
    RowsEventsMembers(g, 0, e);
  }

  /** The dispatch, kind by kind and both ways: a wall places an obstruction,
      an open cell a path tile with its wall mask, exit '0' a path tile and
      the player, exits '1'..'9' a path tile and a door with its rotation,
      and a position holding any other marker (a leftover 'V', say) places
      nothing. */
  lemma SpawnEventsByMarker(g: Grid, c: Cell, mask: int, yaw: int)
    requires IsSquare(g)
    ensures Obstruction(c) in SpawnEvents(g) <==> InGrid(g, c) && At(g, c) == WALL
    ensures Path(c, mask) in SpawnEvents(g) <==>
              InGrid(g, c) && (At(g, c) == OPEN || '0' <= At(g, c) <= '9') && mask == WallTileType(g, c.row, c.col)
    ensures Player(c) in SpawnEvents(g) <==> InGrid(g, c) && At(g, c) == '0'
    ensures Door(c, yaw) in SpawnEvents(g) <==>
              InGrid(g, c) && '1' <= At(g, c) <= '9' && yaw == Rotation(g, c.row, c.col)
    ensures InGrid(g, c) && !IsSpawnMarker(At(g, c)) ==> forall e :: e in SpawnEvents(g) ==> e.at != c
  {
    SpawnEventsMembers(g, Obstruction(c));
    SpawnEventsMembers(g, Path(c, mask));
    SpawnEventsMembers(g, Player(c));
    SpawnEventsMembers(g, Door(c, yaw));
    forall e | e in SpawnEvents(g) && InGrid(g, c) && !IsSpawnMarker(At(g, c))
      ensures e.at != c
    {
      SpawnEventsMembers(g, e);
    }
  }

  /** Row-major order: a before b when a's row is smaller, or the rows agree
      and a's column is not larger. */
  predicate RowMajorLe(a: Cell, b: Cell) {
    a.row < b.row || (a.row == b.row && a.col <= b.col)
  }

  ghost predicate InRowMajorOrder(es: seq<Event>) {
    forall a, b :: 0 <= a < b < |es| ==> RowMajorLe(es[a].at, es[b].at)
  }

  /** Joining two runs in row-major order, every cell of the first at or
      before d and every cell of the second at or after it, keeps the order;
      a lower bound c of the first run, at or before d, bounds the whole. */
  lemma RowMajorConcat(xs: seq<Event>, ys: seq<Event>, zs: seq<Event>, c: Cell, d: Cell)
    requires InRowMajorOrder(xs) && InRowMajorOrder(ys)
    requires forall k :: 0 <= k < |xs| ==> RowMajorLe(c, xs[k].at) && RowMajorLe(xs[k].at, d)
    requires forall k :: 0 <= k < |ys| ==> RowMajorLe(d, ys[k].at)
    requires RowMajorLe(c, d) && zs == xs + ys
    ensures InRowMajorOrder(zs)
    ensures forall k :: 0 <= k < |zs| ==> RowMajorLe(c, zs[k].at)
  {
    forall a, b | 0 <= a < b < |zs| ensures RowMajorLe(zs[a].at, zs[b].at) {
      if b < |xs| {
        assert zs[a] == xs[a] && zs[b] == xs[b];
      } else if a >= |xs| {
        assert zs[a] == ys[a - |xs|] && zs[b] == ys[b - |xs|];
      } else {
        assert zs[a] == xs[a] && zs[b] == ys[b - |xs|];
      }
    }
    forall k | 0 <= k < |zs| ensures RowMajorLe(c, zs[k].at) {
      if k < |xs| {
        assert zs[k] == xs[k];
      } else {
        assert zs[k] == ys[k - |xs|];
      }
    }
  }

  lemma CellEventsOrdered(g: Grid, i: int, j: int)
    requires IsSquare(g) && 0 <= i < |g| && 0 <= j < |g|
    ensures InRowMajorOrder(CellEvents(g, i, j))
  {
  }

  /** Row i from column j on is in row-major order, all of it in row i at
      column j or later. */
  lemma {:induction false} RowEventsOrdered(g: Grid, i: int, j: int)
    requires IsSquare(g) && 0 <= i < |g| && 0 <= j <= |g|
    ensures InRowMajorOrder(RowEvents(g, i, j))
    ensures forall k :: 0 <= k < |RowEvents(g, i, j)| ==>
              RowMajorLe(Cell(i, j), RowEvents(g, i, j)[k].at) && RowEvents(g, i, j)[k].at.row == i
    decreases |g| - j
  {
    if j < |g| {
      var here, rest, all := CellEvents(g, i, j), RowEvents(g, i, j + 1), RowEvents(g, i, j);
      assert all == here + rest;
      CellEventsOrdered(g, i, j);
      RowEventsOrdered(g, i, j + 1);
      RowMajorConcat(here, rest, all, Cell(i, j), Cell(i, j + 1));
      SameRowConcat(here, rest, all, i);
    }
  }

  /** Two runs in row i joined are a run in row i. */
  lemma SameRowConcat(xs: seq<Event>, ys: seq<Event>, zs: seq<Event>, i: int)
    requires forall k :: 0 <= k < |xs| ==> xs[k].at.row == i
    requires forall k :: 0 <= k < |ys| ==> ys[k].at.row == i
    requires zs == xs + ys
    ensures forall k :: 0 <= k < |zs| ==> zs[k].at.row == i
  {
    forall k | 0 <= k < |zs| ensures zs[k].at.row == i {
      if k < |xs| {
        assert zs[k] == xs[k];
      } else {
        assert zs[k] == ys[k - |xs|];
      }
    }
  }

  /** The rows from i on are in row-major order, all of them in row i or later. */
  lemma {:induction false} RowsEventsOrdered(g: Grid, i: int)
    requires IsSquare(g) && 0 <= i <= |g|
    ensures InRowMajorOrder(RowsEvents(g, i))
    ensures forall k :: 0 <= k < |RowsEvents(g, i)| ==> RowMajorLe(Cell(i, 0), RowsEvents(g, i)[k].at)
    decreases |g| - i
  {
    if i < |g| {
      var row, rest, all := RowEvents(g, i, 0), RowsEvents(g, i + 1), RowsEvents(g, i);
      assert all == row + rest;
      RowsEventsOrdered(g, i + 1);
      RowEventsOrdered(g, i, 0);
      RowMajorConcat(row, rest, all, Cell(i, 0), Cell(i + 1, 0));
    }
  }


  /** No event occurs twice in the list. */
  ghost predicate NoRepeats(es: seq<Event>) {
    forall a, b :: 0 <= a < b < |es| ==> es[a] != es[b]
  }

  /** Two runs without repeats, placed at different positions, join into a
      run without repeats. */
  lemma ConcatNoRepeats(xs: seq<Event>, ys: seq<Event>, zs: seq<Event>)
    requires NoRepeats(xs) && NoRepeats(ys)
    requires forall a, b :: 0 <= a < |xs| && 0 <= b < |ys| ==> xs[a].at != ys[b].at
    requires zs == xs + ys
    ensures NoRepeats(zs)
  {
    forall a, b | 0 <= a < b < |zs| ensures zs[a] != zs[b] {
      if b < |xs| {
        assert zs[a] == xs[a] && zs[b] == xs[b];
      } else if a >= |xs| {
        assert zs[a] == ys[a - |xs|] && zs[b] == ys[b - |xs|];
      } else {
        assert zs[a] == xs[a] && zs[b] == ys[b - |xs|];
      }
    }
  }

  /** Row i from column j on issues no event twice: each position's events
      are at that position, and later columns hold other positions. */
  lemma {:induction false} RowNoRepeats(g: Grid, i: int, j: int)
    requires IsSquare(g) && 0 <= i < |g| && 0 <= j <= |g|
    ensures NoRepeats(RowEvents(g, i, j))
    decreases |g| - j
  {
    if j < |g| {
      var here, rest := CellEvents(g, i, j), RowEvents(g, i, j + 1);
      assert RowEvents(g, i, j) == here + rest;
      RowNoRepeats(g, i, j + 1);
      RowEventsOrdered(g, i, j + 1);
      ConcatNoRepeats(here, rest, RowEvents(g, i, j));
    }
  }

  /** The rows from i on issue no event twice. */
  lemma {:induction false} RowsNoRepeats(g: Grid, i: int)
    requires IsSquare(g) && 0 <= i <= |g|
    ensures NoRepeats(RowsEvents(g, i))
    decreases |g| - i
  {
    if i < |g| {
      var row, rest := RowEvents(g, i, 0), RowsEvents(g, i + 1);
      assert RowsEvents(g, i) == row + rest;
      RowNoRepeats(g, i, 0);
      RowsNoRepeats(g, i + 1);
      RowEventsOrdered(g, i, 0);
      RowsEventsOrdered(g, i + 1);
      ConcatNoRepeats(row, rest, RowsEvents(g, i));
    }
  }

  /** Every player or door event comes right after the path tile of its position. */
  ghost predicate PathFirst(g: Grid, es: seq<Event>)
    requires IsSquare(g) && |g| > 0
  {
    forall k :: 0 <= k < |es| && (es[k].Player? || es[k].Door?) ==>
      k > 0 && es[k - 1] == Path(es[k].at, WallTileType(g, es[k].at.row, es[k].at.col))
  }

  lemma PathFirstConcat(g: Grid, xs: seq<Event>, ys: seq<Event>)
    requires IsSquare(g) && |g| > 0
    requires PathFirst(g, xs) && PathFirst(g, ys)
    ensures PathFirst(g, xs + ys)
  {
    var zs := xs + ys;
    forall k | 0 <= k < |zs| && (zs[k].Player? || zs[k].Door?)
      ensures k > 0 && zs[k - 1] == Path(zs[k].at, WallTileType(g, zs[k].at.row, zs[k].at.col))
    {
      if k < |xs| {
        assert zs[k] == xs[k] && zs[k - 1] == xs[k - 1];
      } else {
        assert zs[k] == ys[k - |xs|];
        assert zs[k - 1] == ys[k - |xs| - 1];
      }
    }
  }

  lemma {:induction false} RowEventsPathFirst(g: Grid, i: int, j: int)
    requires IsSquare(g) && 0 <= i < |g| && 0 <= j <= |g|
    ensures PathFirst(g, RowEvents(g, i, j))
    decreases |g| - j
  {
    if j < |g| {
      assert RowEvents(g, i, j) == CellEvents(g, i, j) + RowEvents(g, i, j + 1);
      RowEventsPathFirst(g, i, j + 1);
      CellEventsPathFirst(g, i, j);
      PathFirstConcat(g, CellEvents(g, i, j), RowEvents(g, i, j + 1));
    }
  }

  lemma CellEventsPathFirst(g: Grid, i: int, j: int)
    requires IsSquare(g) && 0 <= i < |g| && 0 <= j < |g|
    ensures PathFirst(g, CellEvents(g, i, j))
  {
    var es := CellEvents(g, i, j);
    if |es| == 2 {
      assert es[0] == Path(Cell(i, j), WallTileType(g, i, j));
      assert !es[0].Player? && !es[0].Door?;
    } else if |es| == 1 {
      assert !es[0].Player? && !es[0].Door?;
    }
  }

  lemma {:induction false} RowsEventsPathFirst(g: Grid, i: int)
    requires IsSquare(g) && |g| > 0 && 0 <= i <= |g|
    ensures PathFirst(g, RowsEvents(g, i))
    decreases |g| - i
  {
    if i < |g| {
      assert RowsEvents(g, i) == RowEvents(g, i, 0) + RowsEvents(g, i + 1);
      RowsEventsPathFirst(g, i + 1);
      RowEventsPathFirst(g, i, 0);
      PathFirstConcat(g, RowEvents(g, i, 0), RowsEvents(g, i + 1));
    }
  }

  /** The player and every door are placed right after the path tile beneath them. */
  lemma SpawnEventsPathFirst(g: Grid)
    requires IsSquare(g) && |g| > 0
    ensures forall k :: 0 <= k < |SpawnEvents(g)| && (SpawnEvents(g)[k].Player? || SpawnEvents(g)[k].Door?) ==>
              k > 0 && SpawnEvents(g)[k - 1] == Path(SpawnEvents(g)[k].at, WallTileType(g, SpawnEvents(g)[k].at.row, SpawnEvents(g)[k].at.col))
  {
    RowsEventsPathFirst(g, 0);
  }
}
