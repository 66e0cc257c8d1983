/** The data of the automaton: one cell record, the grid of rows, and the
    integer conversion the neighbour lookup performs on a cell's coordinates. */
module Cells {

  /** One cell of the stage. `x` is its column and `y` its row (unsigned
      16-bit in the source), `isAlive` its state and `isAliveCache` the copy of
      that state that neighbour lookups read. */
  datatype Cell = Cell(x: nat, y: nat, isAlive: bool, isAliveCache: bool)

  /** The stage: rows from top to bottom, each row its cells from left to right. */
  type Grid = seq<seq<Cell>>

  /** The conversion `as i8` applied to an unsigned coordinate: the low eight
      bits, read in two's complement. */
  function AsI8(v: nat): (r: int)
    ensures -128 <= r < 128
    ensures (v - r) % 256 == 0
    ensures v < 128 ==> r == v
  {
    var low := v % 256;
    if low < 128 then low else low - 256
  }

  /** Adding any of -1, 0, 1 to the cell's converted coordinates stays inside
      the signed 8-bit range, so the neighbour arithmetic does not overflow. */
  predicate FitsI8(c: Cell)
  {
    -127 <= AsI8(c.x) <= 126 && -127 <= AsI8(c.y) <= 126
  }

  /** Every cell of `g` can have its neighbours computed without overflow. */
  predicate Steppable(g: Grid)
  {
    forall y, x :: 0 <= y < |g| && 0 <= x < |g[y]| ==> FitsI8(g[y][x])
  }

  /** Every cell records its own position: the cell at row `y`, column `x` has
      coordinates `(x, y)`; and the grid has at most 127 rows of at most 127
      cells, so that every coordinate survives the conversion to `i8`. */
  predicate Placed(g: Grid)
  {
    |g| <= 127 &&
    (forall y :: 0 <= y < |g| ==> |g[y]| <= 127) &&
    (forall y, x :: 0 <= y < |g| && 0 <= x < |g[y]| ==> g[y][x].x == x && g[y][x].y == y)
  }

  /** Every cell's cache holds its current state. */
  predicate Synced(g: Grid)
  {
    forall y, x :: 0 <= y < |g| && 0 <= x < |g[y]| ==> g[y][x].isAliveCache == g[y][x].isAlive
  }

  /** `g` is `h` rows of `w` cells each. */
  predicate Rectangular(g: Grid, w: nat, h: nat)
  {
    |g| == h && forall y :: 0 <= y < |g| ==> |g[y]| == w
  }

  /** `a` and `b` have the same number of rows and the same row lengths. */
  predicate SameShape(a: Grid, b: Grid)
  {
    |a| == |b| && forall y :: 0 <= y < |a| ==> |a[y]| == |b[y]|
  }

  /** The grid the program builds from a matrix of bits: the cell at row `y`,
      column `x` records position `(x, y)` and state `bits[y][x]`, and its
      cache holds the same state. */
  function Seeded(bits: seq<seq<bool>>): (g: Grid)
    ensures Synced(g)
    ensures |g| == |bits| && forall y :: 0 <= y < |g| ==> |g[y]| == |bits[y]|
    ensures forall y, x :: 0 <= y < |g| && 0 <= x < |g[y]| ==>
              g[y][x].x == x && g[y][x].y == y && g[y][x].isAlive == bits[y][x]
  {
    seq(|bits|, y requires 0 <= y < |bits| =>
      seq(|bits[y]|, x requires 0 <= x < |bits[y]| => Cell(x, y, bits[y][x], bits[y][x])))
  }

  /** A placed grid never overflows the neighbour arithmetic: a coordinate of
      at most 126 is unchanged by the conversion to `i8`. */
  lemma PlacedIsSteppable(g: Grid)
    requires Placed(g)
    ensures Steppable(g)
    ensures forall y, x :: 0 <= y < |g| && 0 <= x < |g[y]| ==>
              AsI8(g[y][x].x) == x && AsI8(g[y][x].y) == y
  {
  }
}
