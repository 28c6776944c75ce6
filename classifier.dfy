/** What the level builder derives from a finished grid: the eight-neighbour
    wall bitmask of a path tile (CalculateWallTileType) and the yaw of a door
    (CalculateRotation). */
module Classifier {
  import opened MazeGrid
  import opened Perimeter

  /** Every row is as long as the grid is tall. The mask reads the grid
      transposed, which stays in bounds only on such grids. */
  predicate IsSquare(g: Grid) {
    forall i :: 0 <= i < |g| ==> |g[i]| == |g|
  }

  /** The eight directions of the Side enumeration. */
  datatype Side = N | NE | E | SE | S | SW | W | NW

  /** The enumeration value of a side: a single bit. */
  function SideBit(s: Side): int {
    match s
    case N => 1
    case NE => 2
    case E => 4
    case SE => 8
    case S => 16
    case SW => 32
    case W => 64
    case NW => 128
  }

  /** The key the Dirs table pairs with a side. */
  function Offset(s: Side): (int, int) {
    match s
    case N => (0, 1)
    case NE => (1, 1)
    case E => (1, 0)
    case SE => (1, -1)
    case S => (0, -1)
    case SW => (-1, -1)
    case W => (-1, 0)
    case NW => (-1, 1)
  }

  /** The entries of Dirs, in the order they are written. */
  const Sides: seq<Side> := [N, NE, E, SE, S, SW, W, NW]

  /** The neighbour of (i, j) the mask examines for side s: the key's second
      component moves the row, its first the column. */
  function NeighborOf(i: int, j: int, s: Side): Cell {
    Cell(i + Offset(s).1, j + Offset(s).0)
  }

  /** The test of the mask loop: the bounds test and the unvisited test of
      IsValidCell run with the coordinates swapped, then the wall test reads
      the neighbour itself. */
  predicate WallBitSet(g: Grid, i: int, j: int, s: Side)
    requires IsSquare(g) && |g| > 0
  {
    var c := NeighborOf(i, j, s);
    !IsValidCell(g, c.col, c.row, |g[0]|, |g|) || g[c.row][c.col] == WALL
  }

  /** The value of Result after the loop has visited the given entries. */
  function MaskOver(g: Grid, i: int, j: int, sides: seq<Side>): int
    requires IsSquare(g) && |g| > 0
  {
    if sides == [] then 0
    else (if WallBitSet(g, i, j, sides[0]) then SideBit(sides[0]) else 0) + MaskOver(g, i, j, sides[1..])
  }

  /** CalculateWallTileType(i, j). */
  function WallTileType(g: Grid, i: int, j: int): (mask: int)
    requires IsSquare(g) && |g| > 0
    ensures mask == Encode(WallBits(g, i, j))
    ensures 0 <= mask < 256
  {
    MaskIsEncode(g, i, j);
    EncodeBound(WallBits(g, i, j));
    assert Pow2(8) == 256;
    MaskOver(g, i, j, Sides)
  }

  /** Bit k of a non-negative integer. */
  predicate TestBit(x: int, k: nat)
    decreases k
  {
    if k == 0 then x % 2 == 1 else TestBit(x / 2, k - 1)
  }

  /** The number whose binary digits, least significant first, are bits. */
  function Encode(bits: seq<bool>): nat {
    if bits == [] then 0 else (if bits[0] then 1 else 0) + 2 * Encode(bits[1..])
  }

  lemma {:induction false} EncodeBits(bits: seq<bool>, k: nat)
    requires k < |bits|
    ensures TestBit(Encode(bits), k) == bits[k]
  {
    var rest := Encode(bits[1..]);
    var b := if bits[0] then 1 else 0;
    assert Encode(bits) == b + 2 * rest;
    LowBit(b, rest);
    if k > 0 {
      EncodeBits(bits[1..], k - 1);
    }
  }

  /** Peeling the lowest binary digit off b + 2 * rest. */
  lemma LowBit(b: int, rest: int)
    requires b == 0 || b == 1
    ensures (b + 2 * rest) % 2 == b && (b + 2 * rest) / 2 == rest
  {
  }

  lemma {:induction false} EncodeBound(bits: seq<bool>)
    ensures Encode(bits) < Pow2(|bits|)
  {
    if bits != [] {
      EncodeBound(bits[1..]);
    }
  }

  function Pow2(k: nat): nat {
    if k == 0 then 1 else 2 * Pow2(k - 1)
  }

  /** Whether each side's bit is set, in Sides order. */
  ghost function WallBits(g: Grid, i: int, j: int): (bits: seq<bool>)
    requires IsSquare(g) && |g| > 0
  {
    seq(8, k requires 0 <= k < 8 => WallBitSet(g, i, j, Sides[k]))
  }

  lemma MaskStep(g: Grid, i: int, j: int, k: nat)
    requires IsSquare(g) && |g| > 0 && k < 8
    ensures MaskOver(g, i, j, Sides[k..]) ==
              (if WallBitSet(g, i, j, Sides[k]) then SideBit(Sides[k]) else 0) + MaskOver(g, i, j, Sides[k + 1..])
  {
    assert Sides[k..][0] == Sides[k] && Sides[k..][1..] == Sides[k + 1..];
  }

  lemma MaskIsEncode(g: Grid, i: int, j: int)
    requires IsSquare(g) && |g| > 0
    ensures MaskOver(g, i, j, Sides) == Encode(WallBits(g, i, j))
  {
    MaskSuffix(g, i, j, 0);
    WeightedIsScaledEncode(WallBits(g, i, j), 1);
    assert Sides[0..] == Sides && WallBits(g, i, j)[0..] == WallBits(g, i, j);
  }

  /** The bits, least significant first, with the first one worth w. */
  function Weighted(bits: seq<bool>, w: int): int {
    if bits == [] then 0 else (if bits[0] then w else 0) + Weighted(bits[1..], 2 * w)
  }

  lemma {:induction false} WeightedIsScaledEncode(bits: seq<bool>, w: int)
    ensures Weighted(bits, w) == w * Encode(bits)
  {
    if bits != [] {
      WeightedIsScaledEncode(bits[1..], 2 * w);
      Distribute(w, if bits[0] then 1 else 0, Encode(bits[1..]));
    }
  }

  /** The entries from the k-th on contribute their bits, the k-th worth 2^k. */
  lemma {:induction false} MaskSuffix(g: Grid, i: int, j: int, k: nat)
    requires IsSquare(g) && |g| > 0 && k <= 8
    ensures MaskOver(g, i, j, Sides[k..]) == Weighted(WallBits(g, i, j)[k..], Pow2(k))
    decreases 8 - k
  {
    var b := WallBits(g, i, j);
    if k < 8 {
      MaskSuffix(g, i, j, k + 1);
      MaskStep(g, i, j, k);
      SideBitIsPow2(k);
      assert b[k..][0] == b[k] && b[k..][1..] == b[k + 1..];
      assert Pow2(k + 1) == 2 * Pow2(k);
    } else {
      assert Sides[k..] == [] && b[k..] == [];
    }
  }

  lemma Distribute(p: int, bit: int, e: int)
    requires bit == 0 || bit == 1
    ensures p * (bit + 2 * e) == (if bit == 1 then p else 0) + (2 * p) * e
  {
  }

  lemma SideBitIsPow2(k: nat)
    requires k < 8
    ensures SideBit(Sides[k]) == Pow2(k)
  {
    assert Pow2(1) == 2 && Pow2(2) == 4 && Pow2(3) == 8 && Pow2(4) == 16;
    assert Pow2(5) == 32 && Pow2(6) == 64 && Pow2(7) == 128;
  }

  /** CalculateWallTileType sums distinct single bits: the result lies in
      0..255 and its bit k is set exactly when the test for the k-th side of
      the table (N, NE, E, SE, S, SW, W, NW) succeeds. */
  lemma WallTileTypeBits(g: Grid, i: int, j: int)
    requires IsSquare(g) && |g| > 0
    ensures 0 <= WallTileType(g, i, j) < 256
    ensures forall k :: 0 <= k < 8 ==> (TestBit(WallTileType(g, i, j), k) <==> WallBitSet(g, i, j, Sides[k]))
  {
    MaskIsEncode(g, i, j);
    EncodeBound(WallBits(g, i, j));
    assert Pow2(8) == 256;
    forall k | 0 <= k < 8
      ensures TestBit(WallTileType(g, i, j), k) <==> WallBitSet(g, i, j, Sides[k])
    {
      EncodeBits(WallBits(g, i, j), k);
    }
  }

  lemma {:induction false} MaskOverConcat(g: Grid, i: int, j: int, a: seq<Side>, b: seq<Side>)
    requires IsSquare(g) && |g| > 0
    ensures MaskOver(g, i, j, a + b) == MaskOver(g, i, j, a) + MaskOver(g, i, j, b)
  {
    if a != [] {
      assert (a + b)[0] == a[0];
      assert (a + b)[1..] == a[1..] + b;
      MaskOverConcat(g, i, j, a[1..], b);
      assert MaskOver(g, i, j, a + b) ==
        (if WallBitSet(g, i, j, a[0]) then SideBit(a[0]) else 0) + MaskOver(g, i, j, a[1..] + b);
    } else {
      assert a + b == b;
    }
  }

  /** The sum does not depend on the order the loop visits the entries in. */
  lemma {:induction false} MaskOverPermutation(g: Grid, i: int, j: int, a: seq<Side>, b: seq<Side>)
    requires IsSquare(g) && |g| > 0
    requires multiset(a) == multiset(b)
    ensures MaskOver(g, i, j, a) == MaskOver(g, i, j, b)
  {
    if a == [] {
      assert |b| == |multiset(b)| == 0;
    } else {
      var p := MatchFirst(a, b);
      MaskOverRemove(g, i, j, b, p);
      MaskOverPermutation(g, i, j, a[1..], b[..p] + b[p + 1..]);
    }
  }

  /** Where in a permutation of a its first entry went, and what is left. */
  lemma MatchFirst(a: seq<Side>, b: seq<Side>) returns (p: int)
    requires a != [] && multiset(a) == multiset(b)
    ensures 0 <= p < |b| && b[p] == a[0]
    ensures multiset(a[1..]) == multiset(b[..p] + b[p + 1..])
  {
    assert a[0] in multiset(b);
    p :| 0 <= p < |b| && b[p] == a[0];
    MultisetRemove(b, p);
    assert a == [a[0]] + a[1..];
    assert multiset(a[1..]) == multiset(a) - multiset{a[0]};
  }

  /** Taking one entry out of the list takes its bit out of the sum. */
  lemma MaskOverRemove(g: Grid, i: int, j: int, b: seq<Side>, p: int)
    requires IsSquare(g) && |g| > 0 && 0 <= p < |b|
    ensures MaskOver(g, i, j, b) ==
              (if WallBitSet(g, i, j, b[p]) then SideBit(b[p]) else 0) + MaskOver(g, i, j, b[..p] + b[p + 1..])
  {
    assert b == b[..p] + [b[p]] + b[p + 1..];
    MaskOverConcat(g, i, j, b[..p] + [b[p]], b[p + 1..]);
    MaskOverConcat(g, i, j, b[..p], [b[p]]);
    MaskOverConcat(g, i, j, b[..p], b[p + 1..]);
    assert MaskOver(g, i, j, [b[p]]) == (if WallBitSet(g, i, j, b[p]) then SideBit(b[p]) else 0);
  }

  lemma MultisetRemove(b: seq<Side>, p: int)
    requires 0 <= p < |b|
    ensures multiset(b[..p] + b[p + 1..]) == multiset(b) - multiset{b[p]}
  {
    assert b == b[..p] + [b[p]] + b[p + 1..];
  }

  /** Whatever order a map traversal gives the eight entries in, the mask is the same. */
  lemma WallTileTypeOrderIndependent(g: Grid, i: int, j: int, order: seq<Side>)
    requires IsSquare(g) && |g| > 0
    requires multiset(order) == multiset(Sides)
    ensures MaskOver(g, i, j, order) == WallTileType(g, i, j)
  {
    MaskOverPermutation(g, i, j, order, Sides);
  }

  /** The test for one side, spelled out: the bit is set when the neighbour
      lies outside [1, n) x [1, n), when the marker at the transposed position
      is not open, or when the neighbour is a wall. */
  lemma WallBitCases(g: Grid, i: int, j: int, s: Side)
    requires IsSquare(g) && |g| > 0
    ensures var c := NeighborOf(i, j, s);
            WallBitSet(g, i, j, s) <==>
              (!(1 <= c.row < |g| && 1 <= c.col < |g|) || g[c.col][c.row] != OPEN || g[c.row][c.col] == WALL)
  {
  }

  /** In particular a neighbour outside [1, n) x [1, n) (so any neighbour in
      row 0 or column 0) or holding a wall always sets its bit. */
  lemma WallBitForWallOrOutside(g: Grid, i: int, j: int, s: Side)
    requires IsSquare(g) && |g| > 0
    requires var c := NeighborOf(i, j, s);
             !(1 <= c.row < |g| && 1 <= c.col < |g|) || g[c.row][c.col] == WALL
    ensures WallBitSet(g, i, j, s)
  {
  }

  /** On a grid equal to its own transpose the swapped test is harmless: a
      bit is set exactly when its neighbour is out of range or not open. */
  lemma WallBitOnSymmetricGrid(g: Grid, i: int, j: int, s: Side)
    requires IsSquare(g) && |g| > 0
    requires forall r, c :: 0 <= r < |g| && 0 <= c < |g| ==> g[r][c] == g[c][r]
    ensures var c := NeighborOf(i, j, s);
            WallBitSet(g, i, j, s) <==> (!(1 <= c.row < |g| && 1 <= c.col < |g|) || g[c.row][c.col] != OPEN)
  {
  }

  /** A 5 x 5 grid whose cells (1,1) and (1,3) are joined through the open
      cell (1,2) while (2,1) is a wall. */
  function JoinedAcross(): Grid {
    ["#####", "#   #", "#####", "#####", "#####"]
  }

  /** The side table pairs E with the key (1, 0), which moves the column. */
  lemma EastIsNextColumn(i: int, j: int)
    ensures NeighborOf(i, j, E) == Cell(i, j + 1)
    ensures NeighborOf(i, j, N) == Cell(i + 1, j)
  {
  }

  /** The swapped read in action: (1,1)'s east neighbour (1,2) is open, yet
      the E bit is set because the marker read is the one at (2,1). */
  lemma TransposedReadSetsOpenSide()
    ensures IsSquare(JoinedAcross()) && |JoinedAcross()| == 5
    ensures JoinedAcross()[1][2] == OPEN
    ensures WallBitSet(JoinedAcross(), 1, 1, E)
  {
    var g := JoinedAcross();
    assert g[2] == "#####";
    assert g[1] == "#   #";
  }

  /** The four edges of the grid, and the yaw CalculateRotation gives a door on each. */
  datatype Edge = Bottom | Right | Top | Left

  function OutwardYaw(e: Edge): int {
    match e
    case Bottom => 90
    case Right => 180
    case Top => 270
    case Left => 0
  }

  predicate OnEdge(c: Cell, e: Edge, rows: int, cols: int) {
    match e
    case Bottom => c.row == rows - 1
    case Right => c.col == cols - 1
    case Top => c.row == 0
    case Left => c.col == 0
  }

  /** CalculateRotation(i, j): the yaw in degrees. The bottom row is tested
      first, then the right column, the top row and the left column; a cell
      on none of them gets yaw 0 (CalculateRotation logs it and carries on). */
  function Rotation(g: Grid, i: int, j: int): (yaw: int)
    requires |g| > 0
    ensures yaw == 0 || yaw == 90 || yaw == 180 || yaw == 270
  {
    if |g| - 1 == i then 90
    else if |g[0]| - 1 == j then 180
    else if 0 == i then 270
    else if 0 == j then 0
    else 0
  }

  function EdgeCount(c: Cell, rows: int, cols: int): nat {
    (if OnEdge(c, Bottom, rows, cols) then 1 else 0) + (if OnEdge(c, Right, rows, cols) then 1 else 0) +
    (if OnEdge(c, Top, rows, cols) then 1 else 0) + (if OnEdge(c, Left, rows, cols) then 1 else 0)
  }

  /** Every position of the perimeter list lies on exactly one edge, and its
      door faces that edge's way out. */
  lemma RotationOnPerimeter(g: Grid, rows: int, cols: int, p: Cell)
    requires OddDims(rows, cols) && IsRect(g, rows, cols)
    requires p in PerimPositions(rows, cols)
    ensures EdgeCount(p, rows, cols) == 1
    ensures forall e :: OnEdge(p, e, rows, cols) ==> Rotation(g, p.row, p.col) == OutwardYaw(e)
    ensures exists e :: OnEdge(p, e, rows, cols) && Rotation(g, p.row, p.col) == OutwardYaw(e)
  {
    PerimPositionsMembers(rows, cols, p);
    if p.row == 0 {
      assert OnEdge(p, Top, rows, cols);
    } else if p.row == rows - 1 {
      assert OnEdge(p, Bottom, rows, cols);
    } else if p.col == 0 {
      assert OnEdge(p, Left, rows, cols);
    } else {
      assert OnEdge(p, Right, rows, cols);
    }
  }

  /** A cell on no edge gets yaw 0 rather than an error. */
  lemma RotationInterior(g: Grid, i: int, j: int)
    requires |g| > 0
    requires 0 < i < |g| - 1 && 0 < j < |g[0]| - 1
    ensures Rotation(g, i, j) == 0
  {
  }
}
