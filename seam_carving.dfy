/** The vertical seam pipeline over arrays: the energy grid of an image, its
    cumulative pass from the top row down, and the trace of the least seam
    from the bottom row up, painted red.  The vertical pass and the whole
    pipeline are stated in terms of the value-level dynamic program of
    Paths; the two minimum searches are stated on the grid, and lemmas
    connect them to Paths. */
module SeamCarving {
  import opened Energy
  import opened Paths

  /** One cell of the energy grid: own is the energy of the pixel, cum the
      cumulative energy of the best path from the top row down to it. */
  datatype Cell = Cell(own: nat, cum: nat)

  /** The energy matrix of the image, row by row: E[y][x] is the energy of
      the pixel at (x, y). */
  ghost function Energies(im: array2<Pixel>, root: nat -> nat): (E: seq<seq<nat>>)
    reads im
    requires 3 <= im.Length0 && 3 <= im.Length1
    ensures |E| == im.Length1 && IsGrid(E, im.Length0)
    ensures forall x, y | 0 <= x < im.Length0 && 0 <= y < im.Length1 :: E[y][x] == root(SquaredEnergy(im, x, y))
  {
    seq(im.Length1, y reads im requires 0 <= y < im.Length1 =>
      seq(im.Length0, x reads im requires 0 <= x < im.Length0 => root(SquaredEnergy(im, x, y))))
  }

  /** The own energies of the grid are the entries of E, and E has the
      grid's shape. */
  ghost predicate HoldsOwn(grid: array2<Cell>, E: seq<seq<nat>>)
    reads grid
  {
    |E| == grid.Length1 && IsGrid(E, grid.Length0) &&
    forall x, y | 0 <= x < grid.Length0 && 0 <= y < grid.Length1 :: grid[x, y].own == E[y][x]
  }

  /** Column c lies in [lo, hi) and in the grid, and no such column of the
      given row has a smaller cumulative energy, nor an equal one at a
      smaller column. */
  ghost predicate LeastInRow(grid: array2<Cell>, row: int, lo: int, hi: int, c: int)
    reads grid
    requires 0 <= row < grid.Length1
  {
    lo <= c < hi && 0 <= c < grid.Length0 &&
    forall c' | lo <= c' < hi && 0 <= c' < grid.Length0 ::
      grid[c, row].cum <= grid[c', row].cum &&
      (grid[c', row].cum == grid[c, row].cum ==> c <= c')
  }

  /** Row row of the grid holds the cumulative energies of E. */
  ghost predicate RowHoldsCum(grid: array2<Cell>, E: seq<seq<nat>>, row: int)
    reads grid
    requires |E| == grid.Length1 && IsGrid(E, grid.Length0) && 0 <= row < grid.Length1
  {
    forall c | 0 <= c < grid.Length0 :: grid[c, row].cum == Cum(E, grid.Length0, c, row)
  }

  /** Some column among x - 1, x, x + 1 lies in a row of w columns. */
  predicate HasCandidate(w: int, x: int) {
    0 < w && -1 <= x <= w
  }

  /** Row 0 of the grid carries its own energies as cumulative energies;
      every other cumulative entry is 0. */
  ghost predicate CumStartsAtTop(grid: array2<Cell>)
    reads grid
  {
    forall x, y | 0 <= x < grid.Length0 && 0 <= y < grid.Length1 ::
      grid[x, y].cum == (if y == 0 then grid[x, y].own else 0)
  }

  /** The cell initArrayEnergy leaves at (x, y) when E holds the energies. */
  ghost function InitialCell(E: seq<seq<nat>>, x: int, y: int): Cell
    requires 0 <= y < |E| && 0 <= x < |E[y]|
  {
    Cell(E[y][x], if y == 0 then E[y][x] else 0)
  }

  /** initArrayEnergy, the grid that the vertical pass reads: every cell holds
      the energy of its pixel, and the cumulative energy of row 0 is its own
      energy; the other cumulative entries keep their initial 0. */
  method InitArrayEnergy(im: array2<Pixel>, root: nat -> nat) returns (grid: array2<Cell>)
    requires 3 <= im.Length0 && 3 <= im.Length1
    ensures fresh(grid)
    ensures grid.Length0 == im.Length0 && grid.Length1 == im.Length1
    ensures forall x, y | 0 <= x < grid.Length0 && 0 <= y < grid.Length1 ::
              grid[x, y].own == root(SquaredEnergy(im, x, y))
    ensures CumStartsAtTop(grid)
  {
    ghost var E := Energies(im, root);
    grid := new Cell[im.Length0, im.Length1]((_, _) => Cell(0, 0));
    for x := 0 to im.Length0
      invariant forall x', y | 0 <= x' < grid.Length0 && 0 <= y < grid.Length1 ::
                  grid[x', y] == (if x' < x then InitialCell(E, x', y) else Cell(0, 0))
    {
      for y := 0 to im.Length1
        invariant forall x', y' | 0 <= x' < grid.Length0 && 0 <= y' < grid.Length1 ::
                    grid[x', y'] == (if x' < x || (x' == x && y' < y) then InitialCell(E, x', y') else Cell(0, 0))
      {
        var en := PixelEnergy(im, root, x, y);
        // own energy, and for row 0 the cumulative energy too
        grid[x, y] := Cell(en, if y == 0 then en else grid[x, y].cum);
      }
    }
    forall x, y | 0 <= x < grid.Length0 && 0 <= y < grid.Length1
      ensures grid[x, y].own == root(SquaredEnergy(im, x, y))
    {
      assert grid[x, y].own == E[y][x];
    }
  }

  /** minEnergyAboveX: the predecessor column of (x, y).  It scans x - 1, x,
      x + 1 of row y - 1, skips columns off the grid and keeps a column only
      when its cumulative energy is strictly below the best so far.  The
      result is the least candidate, the smallest on ties, and 0 when no
      candidate lies in the grid. */
  method MinEnergyAboveX(grid: array2<Cell>, x: int, y: int) returns (minX: int)
    requires 1 <= y <= grid.Length1
    ensures HasCandidate(grid.Length0, x) ==> LeastInRow(grid, y - 1, x - 1, x + 2, minX)
    ensures !HasCandidate(grid.Length0, x) ==> minX == 0
  {
    var found := false;
    var minE: nat := 0;
    minX := 0;
    for col := x - 1 to x + 2
      invariant !found ==> minX == 0
      invariant found ==> LeastInRow(grid, y - 1, x - 1, col, minX) && minE == grid[minX, y - 1].cum
      invariant found <==> x - 1 < col && 0 < col && x - 1 < grid.Length0 && 0 < grid.Length0
    {
      if 0 <= col < grid.Length0 {
        var en := grid[col, y - 1].cum;
        if !found || en < minE {
          minX, minE, found := col, en, true;
        }
      }
    }
  }

  /** The cumulative energies of the grid are those of the dynamic program
      over E. */
  ghost predicate HoldsCum(grid: array2<Cell>, E: seq<seq<nat>>)
    reads grid
  {
    |E| == grid.Length1 && IsGrid(E, grid.Length0) &&
    forall x, y {:trigger Cum(E, grid.Length0, x, y)} | 0 <= x < grid.Length0 && 0 <= y < grid.Length1 ::
      grid[x, y].cum == Cum(E, grid.Length0, x, y)
  }

  /** Once row y - 1 holds the cumulative energies of E, the column that
      minEnergyAboveX returns is the predecessor of the dynamic program. */
  lemma LeastAboveIsPred(grid: array2<Cell>, E: seq<seq<nat>>, x: int, y: int, p: int)
    requires |E| == grid.Length1 && IsGrid(E, grid.Length0)
    requires 1 <= y < grid.Length1 && 0 <= x < grid.Length0
    requires RowHoldsCum(grid, E, y - 1)
    requires LeastInRow(grid, y - 1, x - 1, x + 2, p)
    ensures p == Pred(E, grid.Length0, x, y)
  {
    forall c | IsCandidate(grid.Length0, x, c)
      ensures grid[c, y - 1].cum == Cum(E, grid.Length0, c, y - 1)
    {
    }
    PredIsUnique(E, grid.Length0, x, y, p);
  }

  /** The vertical loop of fillArrayEnergy: rows from the top down, each cell
      of rows 1 .. H - 1 gets its own energy plus the cumulative energy of
      its predecessor.  Given row 0 already holds its own energies, the grid
      ends up holding the cumulative energies of the dynamic program, and
      the own energies are unchanged. */
  method FillArrayEnergy(grid: array2<Cell>, ghost E: seq<seq<nat>>)
    modifies grid
    requires HoldsOwn(grid, E)
    requires forall x | 0 <= x < grid.Length0 && 0 < grid.Length1 :: grid[x, 0].cum == E[0][x]
    ensures HoldsOwn(grid, E)
    ensures HoldsCum(grid, E)
  {
    var y := 1;
    while y < grid.Length1
      invariant 1 <= y <= grid.Length1 + 1
      invariant HoldsOwn(grid, E)
      invariant forall x', y' | 0 <= x' < grid.Length0 && 0 <= y' < y && y' < grid.Length1 ::
                  grid[x', y'].cum == Cum(E, grid.Length0, x', y')
    {
      for x := 0 to grid.Length0
        invariant HoldsOwn(grid, E)
        invariant forall x', y' | 0 <= x' < grid.Length0 && 0 <= y' < grid.Length1 && (y' < y || (y' == y && x' < x)) ::
                    grid[x', y'].cum == Cum(E, grid.Length0, x', y')
      {
        var p := MinEnergyAboveX(grid, x, y);
        LeastAboveIsPred(grid, E, x, y, p);
        CumViaPred(E, grid.Length0, x, y);
        grid[x, y] := Cell(grid[x, y].own, grid[x, y].own + grid[p, y - 1].cum);
      }
      y := y + 1;
    }
  }

  /** minSumEnergyX: the first column of least cumulative energy in the last
      row, and -1 exactly when the grid has no columns. */
  method MinSumEnergyX(grid: array2<Cell>) returns (minX: int)
    requires 0 < grid.Length0 ==> 0 < grid.Length1
    ensures minX == -1 <==> grid.Length0 == 0
    ensures 0 < grid.Length0 ==> LeastInRow(grid, grid.Length1 - 1, 0, grid.Length0, minX)
  {
    var min: nat := 0;
    minX := -1;
    for x := 0 to grid.Length0
      invariant minX == -1 <==> x == 0
      invariant 0 < x ==> LeastInRow(grid, grid.Length1 - 1, 0, x, minX)
      invariant 0 < x ==> min == grid[minX, grid.Length1 - 1].cum
    {
      var en := grid[x, grid.Length1 - 1].cum;
      if minX == -1 || en < min {
        min := en;
        minX := x;
      }
    }
  }

  /** The least column is determined by LeastInRow. */
  lemma LeastInRowIsUnique(grid: array2<Cell>, row: int, lo: int, hi: int, c: int, c': int)
    requires 0 <= row < grid.Length1
    requires LeastInRow(grid, row, lo, hi, c) && LeastInRow(grid, row, lo, hi, c')
    ensures c == c'
  {
    assert grid[c, row].cum <= grid[c', row].cum && grid[c', row].cum <= grid[c, row].cum;
  }

  /** Rows 0 .. y of s are columns of the grid, and for every row k in
      1 .. y the entry of row k - 1 is the column minEnergyAboveX picks
      above the entry of row k. */
  ghost predicate TracesUp(grid: array2<Cell>, s: seq<int>, y: nat)
    reads grid
    requires y < grid.Length1 && y < |s|
    decreases y
  {
    0 <= s[y] < grid.Length0 &&
    (y == 0 || (LeastInRow(grid, y - 1, s[y] - 1, s[y] + 2, s[y - 1]) && TracesUp(grid, s, y - 1)))
  }

  /** s is the seam the grid describes: one column per row, starting at the
      column minSumEnergyX picks in the last row and tracing up. */
  ghost predicate IsGridSeam(grid: array2<Cell>, s: seq<int>)
    reads grid
    requires 1 <= grid.Length1
  {
    |s| == grid.Length1 &&
    LeastInRow(grid, grid.Length1 - 1, 0, grid.Length0, s[grid.Length1 - 1]) &&
    TracesUp(grid, s, grid.Length1 - 1)
  }

  /** Once the grid holds the cumulative energies of E, the seam of E is the
      seam the grid describes. */
  lemma SeamIsGridSeam(grid: array2<Cell>, E: seq<seq<nat>>)
    requires 1 <= grid.Length0 && 1 <= grid.Length1
    requires HoldsCum(grid, E)
    ensures IsGridSeam(grid, Seam(E, grid.Length0))
  {
    var w, h := grid.Length0, grid.Length1;
    var s := Seam(E, w);
    SeamFollowsPreds(E, w);
    assert LeastInRow(grid, h - 1, 0, w, s[h - 1]) by {
      assert RowHoldsCum(grid, E, h - 1);
    }
    PredsTraceUp(grid, E, s, h - 1);
  }

  /** Stepping to predecessors of E is tracing up the grid that holds the
      cumulative energies of E. */
  lemma {:induction false} PredsTraceUp(grid: array2<Cell>, E: seq<seq<nat>>, s: seq<int>, y: nat)
    requires HoldsCum(grid, E)
    requires y < grid.Length1 && y < |s|
    requires StepsToPreds(E, grid.Length0, s, y)
    ensures TracesUp(grid, s, y)
    decreases y
  {
    if y > 0 {
      PredsTraceUp(grid, E, s, y - 1);
      assert RowHoldsCum(grid, E, y - 1);
      assert IsCandidate(grid.Length0, s[y], s[y - 1]);
    }
  }

  /** One step of the trace: the column minEnergyAboveX picks above entry y
      of a traced seam is the seam's entry of row y - 1. */
  lemma TraceStep(grid: array2<Cell>, s: seq<int>, y: nat, next: int)
    requires 1 <= y < grid.Length1 && y < |s|
    requires TracesUp(grid, s, y)
    requires LeastInRow(grid, y - 1, s[y] - 1, s[y] + 2, next)
    ensures next == s[y - 1] && TracesUp(grid, s, y - 1)
  {
    LeastInRowIsUnique(grid, y - 1, s[y] - 1, s[y] + 2, next, s[y - 1]);
  }

  /** The trace of main: starting at the column minSumEnergyX picks in the
      last row, paint the pixel and step to the column minEnergyAboveX picks
      above it, row by row up to row 1, then paint the pixel of row 0.
      Exactly the pixels of the seam the grid describes turn red; every
      other pixel keeps its colour. */
  method TraceSeam(im: array2<Pixel>, grid: array2<Cell>, ghost seam: seq<int>)
    modifies im
    requires grid.Length0 == im.Length0 && grid.Length1 == im.Length1
    requires 1 <= im.Length0 && 1 <= im.Length1
    requires IsGridSeam(grid, seam)
    ensures forall x, y | 0 <= x < im.Length0 && 0 <= y < im.Length1 ::
              im[x, y] == (if x == seam[y] then Red else old(im[x, y]))
  {
    var minX := MinSumEnergyX(grid);
    LeastInRowIsUnique(grid, grid.Length1 - 1, 0, grid.Length0, minX, seam[grid.Length1 - 1]);
    var y := im.Length1 - 1;
    while y >= 1
      invariant 0 <= y < im.Length1
      invariant minX == seam[y] && TracesUp(grid, seam, y)
      invariant forall x', y' | 0 <= x' < im.Length0 && 0 <= y' < im.Length1 ::
                  im[x', y'] == (if y < y' && x' == seam[y'] then Red else old(im[x', y']))
    {
      im[minX, y] := Red;
      var next := MinEnergyAboveX(grid, minX, y);
      TraceStep(grid, seam, y, next);
      minX := next;
      y := y - 1;
    }
    im[minX, 0] := Red;
  }

  /** The whole vertical pipeline of main: build the energy grid, run the
      vertical pass and paint the least seam.  The painted pixels are the
      seam of the image's energy matrix, which no path from the top row to
      the bottom row undercuts (Paths.SeamIsOptimal). */
  method MarkMinimalSeam(im: array2<Pixel>, root: nat -> nat)
    modifies im
    requires 3 <= im.Length0 && 3 <= im.Length1
    ensures forall x, y | 0 <= x < im.Length0 && 0 <= y < im.Length1 ::
              im[x, y] == (if x == Seam(old(Energies(im, root)), im.Length0)[y] then Red else old(im[x, y]))
  {
    ghost var E := Energies(im, root);
    var grid := InitArrayEnergy(im, root);
    assert HoldsOwn(grid, E);
    FillArrayEnergy(grid, E);
    SeamIsGridSeam(grid, E);
    TraceSeam(im, grid, Seam(E, grid.Length0));
  }
}
