/** The step of the automaton: the neighbour lookup, the eight-offset count,
    the survive-on-2-or-3 / born-on-3-or-6 rule and the next generation as a
    function of the previous one. */
module Rules {
  import opened Cells

  /** The lookup the step uses: a position counts as alive when both of its
      coordinates are non-negative, it lies inside the grid (row index below
      the row count, column index below that row's length) and the cached
      state stored there is alive. Positions outside the grid are dead. */
  predicate IsAliveAt(g: Grid, pos: (int, int))
  {
    0 <= pos.1 && 0 <= pos.0 && pos.1 < |g| && pos.0 < |g[pos.1]| && g[pos.1][pos.0].isAliveCache
  }

  /** The eight relative positions `(dx, dy)` visited, in the source's order. */
  const Offsets: seq<(int, int)> := [(-1, -1), (-1, 0), (-1, 1), (0, -1), (0, 1), (1, -1), (1, 0), (1, 1)]

  /** The position at offset number `k` from `(px, py)`. */
  function Shifted(px: int, py: int, k: nat): (int, int)
    requires k < |Offsets|
  {
    (px + Offsets[k].0, py + Offsets[k].1)
  }

  /** How many of the first `k` offsets from `(px, py)` are alive in `g`. */
  function CountOver(g: Grid, px: int, py: int, k: nat): (n: nat)
    requires k <= |Offsets|
    ensures n <= k
    ensures n == 0 <==> forall i :: 0 <= i < k ==> !IsAliveAt(g, Shifted(px, py, i))
  {
    if k == 0 then 0
    else CountOver(g, px, py, k - 1) + (if IsAliveAt(g, Shifted(px, py, k - 1)) then 1 else 0)
  }

  /** The live-neighbour count of cell `c`, looked up around the cell's own
      coordinates converted to `i8`. */
  function NeighborCount(g: Grid, c: Cell): (n: nat)
    requires FitsI8(c)
    ensures n <= 8
  {
    CountOver(g, AsI8(c.x), AsI8(c.y), |Offsets|)
  }

  /** The rule: a live cell stays alive exactly on 2 or 3 live neighbours; a
      dead cell comes alive exactly on 3 or 6. */
  function NextAlive(alive: bool, count: nat): (r: bool)
    ensures alive ==> (r <==> count == 2 || count == 3)
    ensures !alive ==> (r <==> count == 3 || count == 6)
  {
    if alive then
      if count != 2 && count != 3 then false else alive
    else if count == 3 || count == 6 then true
    else alive
  }

  /** First pass on one cell: its new state, judged from the neighbours in
      the snapshot `g`; its cache is left as it was. */
  function Judge(g: Grid, c: Cell): (d: Cell)
    requires FitsI8(c)
    ensures d.x == c.x && d.y == c.y && d.isAliveCache == c.isAliveCache
    ensures d.isAlive == NextAlive(c.isAlive, NeighborCount(g, c))
  {
    c.(isAlive := NextAlive(c.isAlive, NeighborCount(g, c)))
  }

  /** Second pass on one cell: the cache takes the cell's state. */
  function Commit(c: Cell): (d: Cell)
    ensures d.x == c.x && d.y == c.y && d.isAlive == c.isAlive && d.isAliveCache == d.isAlive
  {
    c.(isAliveCache := c.isAlive)
  }

  /** Row `y` after the first pass: each cell judged against `g`. */
  function JudgeRow(g: Grid, y: nat): (row: seq<Cell>)
    requires Steppable(g) && y < |g|
    ensures |row| == |g[y]|
  {
    seq(|g[y]|, x requires 0 <= x < |g[y]| => Judge(g, g[y][x]))
  }

  /** A row after the second pass: each cache takes its cell's state. */
  function CommitRow(row: seq<Cell>): (r: seq<Cell>)
    ensures |r| == |row|
  {
    seq(|row|, x requires 0 <= x < |row| => Commit(row[x]))
  }

  /** The next generation: both passes applied to every cell, every count
      taken in the unchanged grid `g`. */
  function Step(g: Grid): (h: Grid)
    requires Steppable(g)
    ensures SameShape(g, h)
    ensures forall y, x :: 0 <= y < |g| && 0 <= x < |g[y]| ==> h[y][x] == Commit(Judge(g, g[y][x]))
  {
    seq(|g|, y requires 0 <= y < |g| => CommitRow(JudgeRow(g, y)))
  }

  /** A step keeps the shape of the grid and every cell's coordinates, and
      leaves every cache equal to its cell's new state. */
  lemma StepPreservesInvariants(g: Grid)
    requires Placed(g)
    ensures Steppable(g)
    ensures SameShape(g, Step(g)) && Placed(Step(g)) && Synced(Step(g))
    ensures forall y, x :: 0 <= y < |g| && 0 <= x < |g[y]| ==>
              Step(g)[y][x].x == g[y][x].x && Step(g)[y][x].y == g[y][x].y
  {
    PlacedIsSteppable(g);
  }

  /** `n` generations from `g`. */
  function Iterate(g: Grid, n: nat): (h: Grid)
    requires Placed(g)
    ensures SameShape(g, h) && Placed(h)
    decreases n
  {
    if n == 0 then g
    else
      StepPreservesInvariants(g);
      Iterate(Step(g), n - 1)
  }

  // ---------------------------------------------------------------------
  // An independent description of the neighbourhood.

  /** The positions at Chebyshev distance exactly 1 from `(x, y)`. */
  ghost function Around(x: int, y: int): set<(int, int)>
  {
    set px, py | x - 1 <= px <= x + 1 && y - 1 <= py <= y + 1 && (px, py) != (x, y) :: (px, py)
  }

  /** Whether `(px, py)` lies inside the rows and row lengths of `g`. */
  predicate InGrid(g: Grid, px: int, py: int)
  {
    0 <= py < |g| && 0 <= px < |g[py]|
  }

  /** The live cells of `g` (by their current state) at Chebyshev distance 1
      from `(x, y)`. */
  ghost function LiveNeighbours(g: Grid, x: int, y: int): set<(int, int)>
  {
    set p | p in Around(x, y) && InGrid(g, p.0, p.1) && g[p.1][p.0].isAlive
  }

  /** The index of offset `(dx, dy)` in `Offsets`. */
  function OffsetIndex(dx: int, dy: int): (k: nat)
    requires -1 <= dx <= 1 && -1 <= dy <= 1 && (dx, dy) != (0, 0)
    ensures k < |Offsets| && Offsets[k] == (dx, dy)
  {
    if dx == -1 then (if dy == -1 then 0 else if dy == 0 then 1 else 2)
    else if dx == 0 then (if dy == -1 then 3 else 4)
    else (if dy == -1 then 5 else if dy == 0 then 6 else 7)
  }

  /** The offsets are exactly the eight non-zero moves of at most one step in
      each direction, each listed once. */
  lemma OffsetsAreTheEightNeighbours()
    ensures forall k :: 0 <= k < |Offsets| ==>
              -1 <= Offsets[k].0 <= 1 && -1 <= Offsets[k].1 <= 1 && Offsets[k] != (0, 0)
    ensures forall i, j :: 0 <= i < j < |Offsets| ==> Offsets[i] != Offsets[j]
  {
  }

  /** The positions among the first `k` shifted ones that are alive in `g`. */
  ghost function LiveAmong(g: Grid, px: int, py: int, k: nat): set<(int, int)>
    requires k <= |Offsets|
  {
    set i | 0 <= i < k && IsAliveAt(g, Shifted(px, py, i)) :: Shifted(px, py, i)
  }

  /** Different offsets lead to different positions. */
  lemma ShiftedIsInjective(px: int, py: int, i: nat, j: nat)
    requires i < j < |Offsets|
    ensures Shifted(px, py, i) != Shifted(px, py, j)
  {
    OffsetsAreTheEightNeighbours();
    assert Offsets[i] != Offsets[j];
  }

  /** The `k`-th shifted position is none of the earlier ones. */
  lemma ShiftedIsNew(g: Grid, px: int, py: int, k: nat)
    requires k < |Offsets|
    ensures Shifted(px, py, k) !in LiveAmong(g, px, py, k)
  {
    var p := Shifted(px, py, k);
    if p in LiveAmong(g, px, py, k) {
      var i :| 0 <= i < k && IsAliveAt(g, Shifted(px, py, i)) && Shifted(px, py, i) == p;
      ShiftedIsInjective(px, py, i, k);
      assert false;
    }
  }

  /** Looking at one more offset adds its position when it is alive. */
  lemma LiveAmongGrows(g: Grid, px: int, py: int, k: nat)
    requires k < |Offsets|
    ensures LiveAmong(g, px, py, k + 1) ==
            LiveAmong(g, px, py, k) + (if IsAliveAt(g, Shifted(px, py, k)) then {Shifted(px, py, k)} else {})
  {
  }

  /** Counting the first `k` offsets counts a set of distinct live positions. */
  lemma {:induction false} CountIsCardinality(g: Grid, px: int, py: int, k: nat)
    requires k <= |Offsets|
    ensures CountOver(g, px, py, k) == |LiveAmong(g, px, py, k)|
    decreases k
  {
    if k > 0 {
      CountIsCardinality(g, px, py, k - 1);
      ShiftedIsNew(g, px, py, k - 1);
      LiveAmongGrows(g, px, py, k - 1);
    }
  }

  /** With every cache in step with its cell, the eight shifted positions
      that are alive are exactly the live cells around `(x, y)`. */
  lemma LiveAmongIsLiveNeighbours(g: Grid, x: int, y: int)
    requires Synced(g)
    ensures LiveAmong(g, x, y, |Offsets|) == LiveNeighbours(g, x, y)
  {
    OffsetsAreTheEightNeighbours();
    forall p | p in LiveNeighbours(g, x, y) ensures p in LiveAmong(g, x, y, |Offsets|) {
      var k := OffsetIndex(p.0 - x, p.1 - y);
      assert p == Shifted(x, y, k);
    }
  }

  /** The count of a placed, synced cell is the number of live cells at
      Chebyshev distance 1 from its position: exactly the eight neighbours are
      examined, and a position outside the grid never adds to the count. */
  lemma NeighborCountIsLiveNeighbours(g: Grid, y: nat, x: nat)
    requires Placed(g) && Synced(g)
    requires y < |g| && x < |g[y]|
    ensures FitsI8(g[y][x])
    ensures NeighborCount(g, g[y][x]) == |LiveNeighbours(g, x, y)|
  {
    PlacedIsSteppable(g);
    CountIsCardinality(g, x, y, |Offsets|);
    LiveAmongIsLiveNeighbours(g, x, y);
  }

  /** The rule, stated on the grid: after a step the cell at row `y`, column
      `x` is alive exactly when it was alive with 2 or 3 live neighbours, or
      dead with 3 or 6; its cache then holds that new state. */
  lemma StepRule(g: Grid, y: nat, x: nat)
    requires Placed(g) && Synced(g)
    requires y < |g| && x < |g[y]|
    ensures Steppable(g)
    ensures var n := |LiveNeighbours(g, x, y)|;
            Step(g)[y][x].isAlive <==>
              (g[y][x].isAlive && (n == 2 || n == 3)) || (!g[y][x].isAlive && (n == 3 || n == 6))
    ensures Step(g)[y][x].isAliveCache == Step(g)[y][x].isAlive
  {
    NeighborCountIsLiveNeighbours(g, y, x);
  }
}
