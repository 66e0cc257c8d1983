/** What the step guarantees beyond one cell's rule: the dead border, the
    snapshot discipline, still and small worlds, and worked patterns. */
module Properties {
  import opened Cells
  import opened Rules

  // ---------------------------------------------------------------------
  // Edges

  /** A position with a negative coordinate, a row index at or past the row
      count, or a column index at or past that row's length is dead. */
  lemma OutsideIsDead(g: Grid, pos: (int, int))
    requires !InGrid(g, pos.0, pos.1)
    ensures !IsAliveAt(g, pos)
  {
  }

  /** Whether `a` and `b` hold the same cell at `(px, py)`, or both have no
      cell there. */
  predicate SameCellAt(a: Grid, b: Grid, px: int, py: int)
  {
    InGrid(a, px, py) == InGrid(b, px, py) &&
    (InGrid(a, px, py) ==> a[py][px] == b[py][px])
  }

  /** A cell's next state depends only on itself and the cells at Chebyshev
      distance 1 from it: two grids that agree there give it the same next
      state, whatever the rest of the grids hold. */
  lemma StepIsLocal(a: Grid, b: Grid, y: nat, x: nat)
    requires Placed(a) && Synced(a) && Placed(b) && Synced(b)
    requires y < |a| && x < |a[y]| && y < |b| && x < |b[y]|
    requires a[y][x] == b[y][x]
    requires forall p :: p in Around(x, y) ==> SameCellAt(a, b, p.0, p.1)
    ensures Steppable(a) && Steppable(b)
    ensures Step(a)[y][x] == Step(b)[y][x]
  {
    StepRule(a, y, x);
    StepRule(b, y, x);
    assert LiveNeighbours(a, x, y) == LiveNeighbours(b, x, y) by {
      forall p | p in Around(x, y) ensures SameCellAt(a, b, p.0, p.1) { }
    }
  }

  /** No wrap-around: when every row has at least three cells, the last
      column has no influence on the first. Two grids that differ only in
      their last columns give the first column the same next generation. */
  lemma NoWrapAround(a: Grid, b: Grid)
    requires Placed(a) && Synced(a) && Placed(b) && Synced(b) && SameShape(a, b)
    requires forall y :: 0 <= y < |a| ==> |a[y]| >= 3
    requires forall y, x :: 0 <= y < |a| && 0 <= x < |a[y]| - 1 ==> a[y][x] == b[y][x]
    ensures Steppable(a) && Steppable(b)
    ensures forall y :: 0 <= y < |a| ==> Step(a)[y][0] == Step(b)[y][0]
  {
    PlacedIsSteppable(a);
    PlacedIsSteppable(b);
    forall y | 0 <= y < |a| ensures Step(a)[y][0] == Step(b)[y][0] {
      forall p | p in Around(0, y) ensures SameCellAt(a, b, p.0, p.1) {
        assert p.0 <= 1;
      }
      StepIsLocal(a, b, y, 0);
    }
  }

  // ---------------------------------------------------------------------
  // The snapshot

  /** Counts read nothing but the caches: two grids of the same shape whose
      caches agree give every cell the same count. */
  lemma {:induction false} CountReadsOnlyCaches(a: Grid, b: Grid, px: int, py: int, k: nat)
    requires SameShape(a, b)
    requires forall y, x :: 0 <= y < |a| && 0 <= x < |a[y]| ==> a[y][x].isAliveCache == b[y][x].isAliveCache
    requires k <= |Offsets|
    ensures CountOver(a, px, py, k) == CountOver(b, px, py, k)
    decreases k
  {
    if k > 0 {
      CountReadsOnlyCaches(a, b, px, py, k - 1);
      var p := Shifted(px, py, k - 1);
      assert IsAliveAt(a, p) == IsAliveAt(b, p);
    }
  }

  /** The first pass writes only states, never caches. So a grid in which any
      subset of the cells has already been judged, in whatever order, still
      gives every cell the count of the previous generation: no cell can see
      another's new state. */
  lemma JudgingInAnyOrderSeesOldGeneration(g: Grid, t: Grid)
    requires Steppable(g) && SameShape(g, t)
    requires forall y, x :: 0 <= y < |g| && 0 <= x < |g[y]| ==>
               t[y][x] == g[y][x] || t[y][x] == Judge(g, g[y][x])
    ensures forall y, x :: 0 <= y < |g| && 0 <= x < |g[y]| ==>
              NeighborCount(t, g[y][x]) == NeighborCount(g, g[y][x])
  {
    forall y, x | 0 <= y < |g| && 0 <= x < |g[y]|
      ensures NeighborCount(t, g[y][x]) == NeighborCount(g, g[y][x])
    {
      CountReadsOnlyCaches(t, g, AsI8(g[y][x].x), AsI8(g[y][x].y), |Offsets|);
    }
  }

  // ---------------------------------------------------------------------
  // Dead worlds

  /** Every cell, and every cache, is dead. */
  predicate AllDead(g: Grid)
  {
    forall y, x :: 0 <= y < |g| && 0 <= x < |g[y]| ==> !g[y][x].isAlive && !g[y][x].isAliveCache
  }

  /** A dead grid stays dead for one step: every count is 0, which is none
      of 2, 3 or 6. */
  lemma AllDeadStaysDead(g: Grid)
    requires Steppable(g) && AllDead(g)
    ensures AllDead(Step(g))
  {
    forall y, x | 0 <= y < |g| && 0 <= x < |g[y]| ensures !Step(g)[y][x].isAlive {
      var c := g[y][x];
      forall i | 0 <= i < |Offsets| ensures !IsAliveAt(g, Shifted(AsI8(c.x), AsI8(c.y), i)) { }
      assert NeighborCount(g, c) == 0;
    }
  }

  /** A dead grid stays dead for any number of steps. */
  lemma {:induction false} AllDeadForever(g: Grid, n: nat)
    requires Placed(g) && AllDead(g)
    ensures AllDead(Iterate(g, n))
    decreases n
  {
    if n > 0 {
      StepPreservesInvariants(g);
      AllDeadStaysDead(g);
      AllDeadForever(Step(g), n - 1);
    }
  }

  /** A grid of a single cell is dead after one step, whatever its state:
      all eight neighbours lie outside the grid. */
  lemma SingleCellDies(g: Grid)
    requires Placed(g) && |g| == 1 && |g[0]| == 1
    ensures Steppable(g)
    ensures !Step(g)[0][0].isAlive && !Step(g)[0][0].isAliveCache
  {
    PlacedIsSteppable(g);
    OffsetsAreTheEightNeighbours();
    forall i | 0 <= i < |Offsets| ensures !IsAliveAt(g, Shifted(0, 0, i)) { }
  }

  // ---------------------------------------------------------------------
  // Worked patterns

  /** The blinker as a horizontal bar of three cells in the middle row of a 3x3 grid. */
  function BlinkerHorizontal(): Grid
  {
    [[Cell(0, 0, false, false), Cell(1, 0, false, false), Cell(2, 0, false, false)],
       [Cell(0, 1, true, true), Cell(1, 1, true, true), Cell(2, 1, true, true)],
       [Cell(0, 2, false, false), Cell(1, 2, false, false), Cell(2, 2, false, false)]]
  }

  /** The same blinker as a vertical bar in the middle column. */
  function BlinkerVertical(): Grid
  {
    [[Cell(0, 0, false, false), Cell(1, 0, true, true), Cell(2, 0, false, false)],
       [Cell(0, 1, false, false), Cell(1, 1, true, true), Cell(2, 1, false, false)],
       [Cell(0, 2, false, false), Cell(1, 2, true, true), Cell(2, 2, false, false)]]
  }

  /** Every cell of the horizontal blinker can be stepped. */
  lemma BlinkerHorizontalIsPlaced()
    ensures Placed(BlinkerHorizontal()) && Synced(BlinkerHorizontal())
  {
    var g: Grid := BlinkerHorizontal();
    assert forall y: int, x: int :: 0 <= y < |g| && 0 <= x < |g[y]| ==> g[y][x].x == x && g[y][x].y == y;
  }

  /** A 3-row grid steps to `h` when each of `h`'s rows is the step of the
      corresponding row. */
  lemma StepOfThreeRows(g: Grid, h: Grid)
    requires Steppable(g) && |g| == 3 && |h| == 3
    requires h[0] == CommitRow(JudgeRow(g, 0))
    requires h[1] == CommitRow(JudgeRow(g, 1))
    requires h[2] == CommitRow(JudgeRow(g, 2))
    ensures Step(g) == h
  {
  }

  /** The blinker's top row: the middle cell, dead with three live neighbours, is born; the corners have two. */
  lemma BlinkerRow0()
    requires Steppable(BlinkerHorizontal())
    ensures BlinkerVertical()[0] == CommitRow(JudgeRow(BlinkerHorizontal(), 0))
  {
    var g: Grid := BlinkerHorizontal();
    assert NeighborCount(g, g[0][0]) == 2;
    assert NeighborCount(g, g[0][1]) == 3;
    assert NeighborCount(g, g[0][2]) == 2;
  }

  /** The blinker's middle row: the centre keeps two live neighbours and survives; the ends have one and die. */
  lemma BlinkerRow1()
    requires Steppable(BlinkerHorizontal())
    ensures BlinkerVertical()[1] == CommitRow(JudgeRow(BlinkerHorizontal(), 1))
  {
    var g: Grid := BlinkerHorizontal();
    assert NeighborCount(g, g[1][0]) == 1;
    assert NeighborCount(g, g[1][1]) == 2;
    assert NeighborCount(g, g[1][2]) == 1;
  }

  /** The blinker's bottom row: as the top row. */
  lemma BlinkerRow2()
    requires Steppable(BlinkerHorizontal())
    ensures BlinkerVertical()[2] == CommitRow(JudgeRow(BlinkerHorizontal(), 2))
  {
    var g: Grid := BlinkerHorizontal();
    assert NeighborCount(g, g[2][0]) == 2;
    assert NeighborCount(g, g[2][1]) == 3;
    assert NeighborCount(g, g[2][2]) == 2;
  }

  /** The blinker: a horizontal bar of three turns vertical in one step. */
  lemma BlinkerTurns()
    ensures Steppable(BlinkerHorizontal())
    ensures Step(BlinkerHorizontal()) == BlinkerVertical()
  {
    BlinkerHorizontalIsPlaced();
    PlacedIsSteppable(BlinkerHorizontal());
    BlinkerRow0();
    BlinkerRow1();
    BlinkerRow2();
    StepOfThreeRows(BlinkerHorizontal(), BlinkerVertical());
  }

  /** A 3x3 grid with every cell alive. */
  function FullBlock(): Grid
  {
    [[Cell(0, 0, true, true), Cell(1, 0, true, true), Cell(2, 0, true, true)],
       [Cell(0, 1, true, true), Cell(1, 1, true, true), Cell(2, 1, true, true)],
       [Cell(0, 2, true, true), Cell(1, 2, true, true), Cell(2, 2, true, true)]]
  }

  /** Overcrowding: the centre of a full block, alive with all eight
      neighbours alive, dies, since 8 is neither 2 nor 3. */
  lemma CrowdedCentreDies()
    ensures Steppable(FullBlock())
    ensures !Step(FullBlock())[1][1].isAlive
  {
    var g: Grid := FullBlock();
    assert forall y: int, x: int :: 0 <= y < |g| && 0 <= x < |g[y]| ==> g[y][x].x == x && g[y][x].y == y;
    PlacedIsSteppable(g);
    assert NeighborCount(g, g[1][1]) == 8;
  }

  /** A 3x3 grid whose top and bottom rows are alive and whose middle row is dead. */
  function TwoBars(): Grid
  {
    [[Cell(0, 0, true, true), Cell(1, 0, true, true), Cell(2, 0, true, true)],
       [Cell(0, 1, false, false), Cell(1, 1, false, false), Cell(2, 1, false, false)],
       [Cell(0, 2, true, true), Cell(1, 2, true, true), Cell(2, 2, true, true)]]
  }

  /** Birth on six: the dead centre between two full bars has six live
      neighbours and comes alive, which classical Life (birth on three
      only) would not do. */
  lemma BornOnSix()
    ensures Steppable(TwoBars())
    ensures Step(TwoBars())[1][1].isAlive
  {
    var g: Grid := TwoBars();
    assert forall y: int, x: int :: 0 <= y < |g| && 0 <= x < |g[y]| ==> g[y][x].x == x && g[y][x].y == y;
    PlacedIsSteppable(g);
    assert NeighborCount(g, g[1][1]) == 6;
  }
}
