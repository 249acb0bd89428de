/**
 * The binary occupancy grid. The canvas is sampled every STEP pixels;
 * an entry is 0 (bright) when the integer mean of the sampled pixel's
 * channels exceeds SIGMA and 1 (dark) otherwise. The grid has p + 1 rows
 * of q + 1 entries, p = x / STEP and q = y / STEP, and is filled by three
 * passes, each split among the workers: the interior rows, the last
 * column (entry q of each row) and the last row (row p).
 *
 * The edge passes are written for a square canvas: the last-column pass
 * runs over q rows and samples column x - 1 under row stride y, so it
 * requires x == y here; the last-row pass runs over p columns and needs
 * only that its last column exists.
 *
 * None of the passes writes grid[p][q], which the march reads as the
 * bottom-right corner of its last cell. FillGridAsWritten models the three
 * passes as they are; FillGrid adds FillCorner, which samples the canvas's
 * bottom-right pixel, and is the version the pipeline uses.
 */
module Grid {

  import opened Ppm
  import Partition

  const STEP := 8
  const SIGMA := 200

  /** The channel mean the program stores in an unsigned char; it always fits. */
  function Mean(px: Pixel): (m: int)
    ensures 0 <= m <= 255
  {
    (px.red as int + px.green as int + px.blue as int) / 3
  }

  /** Grid entry for a sampled pixel: 0 when bright, 1 when dark. */
  function Binarize(px: Pixel): (b: byte)
    ensures b == 0 || b == 1
    ensures b == 0 <==> Mean(px) > SIGMA
  {
    if Mean(px) > SIGMA then 0 else 1
  }

  /** The grid has x / STEP + 1 rows, each allocated with y / STEP + 1 entries. */
  predicate GridShape(grid: array2<byte>, x: int, y: int) {
    grid.Length0 == x / STEP + 1 && grid.Length1 == y / STEP + 1
  }

  /** Every entry of the grid is a bit. */
  ghost predicate GridIsBinary(grid: array2<byte>)
    reads grid
  {
    forall i, j :: 0 <= i < grid.Length0 && 0 <= j < grid.Length1 ==> grid[i, j] <= 1
  }

  /** The canvas row (or column) that grid row (or column) i stands for:
      the lattice line i * STEP, or the canvas's last line for the edge entry. */
  function Lattice(i: int, extent: int): int {
    if i < extent / STEP then i * STEP else extent - 1
  }

  /** Flat offset the last-column pass samples for grid row i. */
  function LastColumnSample(x: int, y: int, i: int): (k: int)
    ensures 0 < x == y && 0 <= i < y / STEP ==> 0 <= k < x * y
  {
    if 0 < x == y && 0 <= i < y / STEP then
      PixelIndexInBounds(i * STEP, x - 1, x, y);
      i * STEP * y + x - 1
    else
      i * STEP * y + x - 1
  }

  /** Offset k decodes to pixel (k / y, k % y). */
  lemma DivModOfPixelIndex(i: int, j: int, y: int)
    requires 0 <= j < y
    ensures PixelIndex(i, j, y) / y == i && PixelIndex(i, j, y) % y == j
  {
    var k := PixelIndex(i, j, y);
    assert k == PixelIndex(k / y, k % y, y);
    PixelIndexInjective(k / y, k % y, i, j, y);
  }

  /** The last-column pass samples the canvas's rightmost pixel of lattice
      row i * STEP exactly when the canvas is square. */
  lemma LastColumnSampleIsRightEdge(x: int, y: int, i: int)
    requires 0 < x && 0 < y
    ensures var k := LastColumnSample(x, y, i);
            (k / y == i * STEP && k % y == y - 1) <==> x == y
  {
    var k := LastColumnSample(x, y, i);
    if x == y {
      assert k == PixelIndex(i * STEP, y - 1, y);
      DivModOfPixelIndex(i * STEP, y - 1, y);
    }
  }

  /** The last-row pass samples offset (x - 1) * y + j * STEP. It is inside
      the buffer, in the canvas's last row, exactly when column j * STEP
      exists; on a square canvas that holds for every j < p. */
  lemma LastRowSampleInLastRow(x: int, y: int, j: int)
    requires 0 < x && 0 < y && 0 <= j
    ensures var k := PixelIndex(x - 1, j * STEP, y);
            (0 <= k < x * y && k / y == x - 1) <==> j * STEP < y
  {
    var k := PixelIndex(x - 1, j * STEP, y);
    assert x * y == (x - 1) * y + y;
    if j * STEP < y {
      PixelIndexInBounds(x - 1, j * STEP, x, y);
      DivModOfPixelIndex(x - 1, j * STEP, y);
    }
  }

  /** The last-row pass over columns [0, hi) samples columns below y and
      writes entries inside a row of y / STEP + 1: the last sampled column
      (hi - 1) * STEP exists. */
  predicate LastRowColumnsExist(hi: int, y: int) {
    hi <= 0 || (hi - 1) * STEP < y
  }

  /** A fresh grid of the program's shape. Its entries are not specified:
      the rows come from malloc. */
  method AllocateGrid(x: nat, y: nat) returns (grid: array2<byte>)
    ensures fresh(grid) && GridShape(grid, x, y)
  {
    grid := new byte[x / STEP + 1, y / STEP + 1];
  }

  /** One worker's share of the interior pass: rows [lo, hi), j < q. */
  method FillInteriorRows(canvas: Image, grid: array2<byte>, lo: int, hi: int)
    requires canvas.Valid() && GridShape(grid, canvas.x, canvas.y)
    requires 0 <= lo <= hi <= canvas.x / STEP
    modifies grid
    ensures forall i, j :: 0 <= i < grid.Length0 && 0 <= j < grid.Length1 ==>
              grid[i, j] == if lo <= i < hi && j < canvas.y / STEP
                            then Binarize(canvas.At(i * STEP, j * STEP))
                            else old(grid[i, j])
  {
    var q := canvas.y / STEP;
    for i := lo to hi
      invariant forall i', j :: 0 <= i' < grid.Length0 && 0 <= j < grid.Length1 ==>
                  grid[i', j] == if lo <= i' < i && j < q
                                 then Binarize(canvas.At(i' * STEP, j * STEP))
                                 else old(grid[i', j])
    {
      for j := 0 to q
        invariant forall i', j' :: 0 <= i' < grid.Length0 && 0 <= j' < grid.Length1 ==>
                    grid[i', j'] == if (lo <= i' < i && j' < q) || (i' == i && j' < j)
                                    then Binarize(canvas.At(i' * STEP, j' * STEP))
                                    else old(grid[i', j'])
      {
        PixelIndexInBounds(i * STEP, j * STEP, canvas.x, canvas.y);
        var currPixel := canvas.data[i * STEP * canvas.y + j * STEP];
        assert currPixel == canvas.At(i * STEP, j * STEP);
        grid[i, j] := Binarize(currPixel);
      }
    }
  }

  /** The interior pass, rows [0, p) split among n workers. */
  method FillInterior(canvas: Image, grid: array2<byte>, n: int)
    requires canvas.Valid() && GridShape(grid, canvas.x, canvas.y) && n > 0
    modifies grid
    ensures forall i, j :: 0 <= i < grid.Length0 && 0 <= j < grid.Length1 ==>
              grid[i, j] == if i < canvas.x / STEP && j < canvas.y / STEP
                            then Binarize(canvas.At(i * STEP, j * STEP))
                            else old(grid[i, j])
  {
    var p, q := canvas.x / STEP, canvas.y / STEP;
    Partition.StartWithin(0, p, n);
    for tid := 0 to n
      invariant 0 <= Partition.Start(tid, p, n) <= p
      invariant forall i, j :: 0 <= i < grid.Length0 && 0 <= j < grid.Length1 ==>
                  grid[i, j] == if i < Partition.Start(tid, p, n) && j < q
                                then Binarize(canvas.At(i * STEP, j * STEP))
                                else old(grid[i, j])
    {
      Partition.EndIsNextStart(tid, p, n);
      FillInteriorRows(canvas, grid, Partition.Start(tid, p, n), Partition.End(tid, p, n));
    }
    Partition.StartWithin(n, p, n);
  }

  /** One worker's share of the last-column pass: grid[i][q] for i in
      [lo, hi), sampled at offset i * STEP * y + x - 1. */
  method FillLastColumnRows(canvas: Image, grid: array2<byte>, lo: int, hi: int)
    requires canvas.Valid() && GridShape(grid, canvas.x, canvas.y)
    requires canvas.x == canvas.y
    requires 0 <= lo <= hi <= canvas.y / STEP
    modifies grid
    ensures forall i, j :: 0 <= i < grid.Length0 && 0 <= j < grid.Length1 ==>
              grid[i, j] == if lo <= i < hi && j == canvas.y / STEP
                            then Binarize(canvas.At(i * STEP, canvas.x - 1))
                            else old(grid[i, j])
  {
    var q := canvas.y / STEP;
    for i := lo to hi
      invariant forall i', j :: 0 <= i' < grid.Length0 && 0 <= j < grid.Length1 ==>
                  grid[i', j] == if lo <= i' < i && j == q
                                 then Binarize(canvas.At(i' * STEP, canvas.x - 1))
                                 else old(grid[i', j])
    {
      PixelIndexInBounds(i * STEP, canvas.x - 1, canvas.x, canvas.y);
      var currPixel := canvas.data[LastColumnSample(canvas.x, canvas.y, i)];
      assert currPixel == canvas.At(i * STEP, canvas.x - 1);
      grid[i, q] := Binarize(currPixel);
    }
  }

  /** The last-column pass, rows [0, q) split among n workers. */
  method FillLastColumn(canvas: Image, grid: array2<byte>, n: int)
    requires canvas.Valid() && GridShape(grid, canvas.x, canvas.y) && n > 0
    requires canvas.x == canvas.y
    modifies grid
    ensures forall i, j :: 0 <= i < grid.Length0 && 0 <= j < grid.Length1 ==>
              grid[i, j] == if i < canvas.y / STEP && j == canvas.y / STEP
                            then Binarize(canvas.At(i * STEP, canvas.x - 1))
                            else old(grid[i, j])
  {
    var q := canvas.y / STEP;
    Partition.StartWithin(0, q, n);
    for tid := 0 to n
      invariant 0 <= Partition.Start(tid, q, n) <= q
      invariant forall i, j :: 0 <= i < grid.Length0 && 0 <= j < grid.Length1 ==>
                  grid[i, j] == if i < Partition.Start(tid, q, n) && j == q
                                then Binarize(canvas.At(i * STEP, canvas.x - 1))
                                else old(grid[i, j])
    {
      Partition.EndIsNextStart(tid, q, n);
      FillLastColumnRows(canvas, grid, Partition.Start(tid, q, n), Partition.End(tid, q, n));
    }
    Partition.StartWithin(n, q, n);
  }

  /** One worker's share of the last-row pass: grid[p][j] for j in
      [lo, hi), sampled at offset (x - 1) * y + j * STEP. */
  method FillLastRowColumns(canvas: Image, grid: array2<byte>, lo: int, hi: int)
    requires canvas.Valid() && GridShape(grid, canvas.x, canvas.y)
    requires 0 <= lo <= hi <= canvas.x / STEP && LastRowColumnsExist(hi, canvas.y)
    modifies grid
    ensures forall i, j :: 0 <= i < grid.Length0 && 0 <= j < grid.Length1 ==>
              grid[i, j] == if i == canvas.x / STEP && lo <= j < hi
                            then Binarize(canvas.At(canvas.x - 1, j * STEP))
                            else old(grid[i, j])
  {
    var p := canvas.x / STEP;
    for j := lo to hi
      invariant forall i, j' :: 0 <= i < grid.Length0 && 0 <= j' < grid.Length1 ==>
                  grid[i, j'] == if i == p && lo <= j' < j
                                 then Binarize(canvas.At(canvas.x - 1, j' * STEP))
                                 else old(grid[i, j'])
    {
      PixelIndexInBounds(canvas.x - 1, j * STEP, canvas.x, canvas.y);
      var currPixel := canvas.data[(canvas.x - 1) * canvas.y + j * STEP];
      assert currPixel == canvas.At(canvas.x - 1, j * STEP);
      grid[p, j] := Binarize(currPixel);
    }
  }

  /** The last-row pass, columns [0, p) split among n workers. */
  method FillLastRow(canvas: Image, grid: array2<byte>, n: int)
    requires canvas.Valid() && GridShape(grid, canvas.x, canvas.y) && n > 0
    requires LastRowColumnsExist(canvas.x / STEP, canvas.y)
    modifies grid
    ensures forall i, j :: 0 <= i < grid.Length0 && 0 <= j < grid.Length1 ==>
              grid[i, j] == if i == canvas.x / STEP && j < canvas.x / STEP
                            then Binarize(canvas.At(canvas.x - 1, j * STEP))
                            else old(grid[i, j])
  {
    var p := canvas.x / STEP;
    Partition.StartWithin(0, p, n);
    for tid := 0 to n
      invariant 0 <= Partition.Start(tid, p, n) <= p
      invariant forall i, j :: 0 <= i < grid.Length0 && 0 <= j < grid.Length1 ==>
                  grid[i, j] == if i == p && j < Partition.Start(tid, p, n)
                                then Binarize(canvas.At(canvas.x - 1, j * STEP))
                                else old(grid[i, j])
    {
      Partition.EndIsNextStart(tid, p, n);
      FillLastRowColumns(canvas, grid, Partition.Start(tid, p, n), Partition.End(tid, p, n));
    }
    Partition.StartWithin(n, p, n);
  }

  /** The three passes as the program runs them. Every entry except
      grid[p][q] samples its lattice point; grid[p][q] keeps whatever the
      allocation left there. */
  method FillGridAsWritten(canvas: Image, grid: array2<byte>, n: int)
    requires canvas.Valid() && GridShape(grid, canvas.x, canvas.y) && n > 0
    requires canvas.x == canvas.y
    modifies grid
    ensures forall i, j :: 0 <= i < grid.Length0 && 0 <= j < grid.Length1 && (i, j) != (canvas.x / STEP, canvas.y / STEP) ==>
              grid[i, j] == Binarize(canvas.At(Lattice(i, canvas.x), Lattice(j, canvas.y)))
    ensures grid[canvas.x / STEP, canvas.y / STEP] == old(grid[canvas.x / STEP, canvas.y / STEP])
  {
    FillInterior(canvas, grid, n);
    FillLastColumn(canvas, grid, n);
    FillLastRow(canvas, grid, n);
  }

  /** The entry the passes miss: grid[p][q] from the bottom-right pixel. */
  method FillCorner(canvas: Image, grid: array2<byte>)
    requires canvas.Valid() && GridShape(grid, canvas.x, canvas.y)
    modifies grid
    ensures forall i, j :: 0 <= i < grid.Length0 && 0 <= j < grid.Length1 ==>
              grid[i, j] == if i == canvas.x / STEP && j == canvas.y / STEP && 0 < canvas.x && 0 < canvas.y
                            then Binarize(canvas.At(canvas.x - 1, canvas.y - 1))
                            else old(grid[i, j])
  {
    if 0 < canvas.x && 0 < canvas.y {
      PixelIndexInBounds(canvas.x - 1, canvas.y - 1, canvas.x, canvas.y);
      var currPixel := canvas.data[(canvas.x - 1) * canvas.y + canvas.y - 1];
      assert currPixel == canvas.At(canvas.x - 1, canvas.y - 1);
      grid[canvas.x / STEP, canvas.y / STEP] := Binarize(currPixel);
    }
  }

  /** The complete grid: on a non-empty square canvas every entry (i, j)
      is the binarised pixel at lattice point (Lattice(i, x), Lattice(j, y)),
      so every entry is a bit. */
  method FillGrid(canvas: Image, grid: array2<byte>, n: int)
    requires canvas.Valid() && GridShape(grid, canvas.x, canvas.y) && n > 0
    requires canvas.x == canvas.y
    modifies grid
    ensures 0 < canvas.x ==>
              forall i, j :: 0 <= i < grid.Length0 && 0 <= j < grid.Length1 ==>
                grid[i, j] == Binarize(canvas.At(Lattice(i, canvas.x), Lattice(j, canvas.y)))
    ensures 0 < canvas.x ==> GridIsBinary(grid)
  {
    FillGridAsWritten(canvas, grid, n);
    FillCorner(canvas, grid);
  }
}
