/** The stage the program owns: built once from a matrix of random bits, then
    advanced in place one generation per frame. */
module Game {
  import opened Cells
  import opened Rules

  /** The inner loop of the step: walks the eight offsets around the cell's
      converted coordinates and counts those alive in the snapshot. */
  method CountLiveNeighbours(snapshot: Grid, cell: Cell) returns (counter: nat)
    requires FitsI8(cell)
    ensures counter == NeighborCount(snapshot, cell)
  {
    var px, py := AsI8(cell.x), AsI8(cell.y);
    counter := 0;
    var k := 0;
    while k < |Offsets|
      invariant 0 <= k <= |Offsets|
      invariant counter == CountOver(snapshot, px, py, k)
    {
      if IsAliveAt(snapshot, Shifted(px, py, k)) {
        counter := counter + 1;
      }
      k := k + 1;
    }
  }

  class Stage {
    /** The rows of cells, updated in place by `Update`. */
    var rows: Grid
    /** Number of cells per row (50 in the program). */
    const width: nat
    /** Number of rows (30 in the program). */
    const height: nat

    /** The invariant the construction establishes: `height` rows of `width`
        cells, each cell recording its own position, each cache equal to the
        cell's state. */
    ghost predicate Valid()
      reads this
    {
      Rectangular(rows, width, height) && Placed(rows) && Synced(rows)
    }

    /** Builds the stage row by row, the cell at row `y`, column `x` taking
        the bit `seed[y][x]` (the program draws each from a fair coin). */
    constructor (w: nat, h: nat, seed: seq<seq<bool>>)
      requires w <= 127 && h <= 127
      requires |seed| == h && forall y :: 0 <= y < h ==> |seed[y]| == w
      ensures width == w && height == h && Valid()
      ensures rows == Seeded(seed)
    {
      width, height := w, h;
      var stage: Grid := [];
      var y := 0;
      while y < h
        invariant 0 <= y <= h
        invariant |stage| == y
        invariant forall i :: 0 <= i < y ==> |stage[i]| == w
        invariant forall i, j :: 0 <= i < y && 0 <= j < w ==>
                    stage[i][j] == Cell(j, i, seed[i][j], seed[i][j])
      {
        var row: seq<Cell> := [];
        var x := 0;
        while x < w
          invariant 0 <= x <= w
          invariant |row| == x
          invariant forall j :: 0 <= j < x ==> row[j] == Cell(j, y, seed[y][j], seed[y][j])
        {
          var isAlive := seed[y][x];
          row := row + [Cell(x, y, isAlive, isAlive)];
          x := x + 1;
        }
        stage := stage + [row];
        y := y + 1;
      }
      assert forall i :: 0 <= i < h ==> stage[i] == Seeded(seed)[i];
      rows := stage;
    }

    /** One generation: every cell's new state is judged from a snapshot of
        the stage taken before anything changes, then every cache takes its
        cell's new state. The stage keeps its shape, its coordinates and its
        invariant, and becomes exactly `Step` of what it was. */
    method Update()
      requires Valid()
      modifies this
      ensures Valid()
      ensures rows == Step(old(rows))
      ensures SameShape(old(rows), rows)
      ensures forall y, x :: 0 <= y < |rows| && 0 <= x < |rows[y]| ==>
                rows[y][x].x == old(rows)[y][x].x && rows[y][x].y == old(rows)[y][x].y
    {
      PlacedIsSteppable(rows);
      var snapshot, stage := rows, rows;
      var y := 0;
      while y < |stage|
        invariant 0 <= y <= |stage| == |snapshot|
        invariant forall i :: 0 <= i < y ==> stage[i] == JudgeRow(snapshot, i)
        invariant forall i :: y <= i < |stage| ==> stage[i] == snapshot[i]
      {
        var row := stage[y];
        var x := 0;
        while x < |row|
          invariant 0 <= x <= |row| == |snapshot[y]|
          invariant forall j :: 0 <= j < x ==> row[j] == JudgeRow(snapshot, y)[j]
          invariant forall j :: x <= j < |row| ==> row[j] == snapshot[y][j]
        {
          var cell := row[x];
          var counter := CountLiveNeighbours(snapshot, cell);
          if cell.isAlive {
            if counter != 2 && counter != 3 {
              cell := cell.(isAlive := false);
            }
          } else if counter == 3 || counter == 6 {
            cell := cell.(isAlive := true);
          }
          row := row[x := cell];
          x := x + 1;
        }
        stage := stage[y := row];
        y := y + 1;
      }

      y := 0;
      while y < |stage|
        invariant 0 <= y <= |stage| == |snapshot|
        invariant forall i :: 0 <= i < y ==> stage[i] == CommitRow(JudgeRow(snapshot, i))
        invariant forall i :: y <= i < |stage| ==> stage[i] == JudgeRow(snapshot, i)
      {
        var row := stage[y];
        var x := 0;
        while x < |row|
          invariant 0 <= x <= |row| == |snapshot[y]|
          invariant forall j :: 0 <= j < x ==> row[j] == CommitRow(JudgeRow(snapshot, y))[j]
          invariant forall j :: x <= j < |row| ==> row[j] == JudgeRow(snapshot, y)[j]
        {
          row := row[x := row[x].(isAliveCache := row[x].isAlive)];
          x := x + 1;
        }
        stage := stage[y := row];
        y := y + 1;
      }
      rows := stage;
      StepPreservesInvariants(snapshot);
    }
  }
}
