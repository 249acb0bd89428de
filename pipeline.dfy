/**
 * The whole computation, one phase after another, each phase split among
 * n workers exactly as the worker threads split it: choose the canvas
 * (rescale or pass through), allocate and fill the grid, march the cells.
 * The phases are separated by barriers in the program, so running them
 * in sequence is what every worker observes. Nothing in the postcondition
 * depends on n: the result is the same for every thread count.
 */
module Pipeline {

  import opened Ppm
  import opened Grid
  import opened Contour
  import opened March
  import opened Rescale

  /**
   * The contour image for `image`. `before` is the canvas as it was before
   * the march. Every grid entry is the binarised pixel at its lattice
   * point of `before`; the tiled area [0, p * STEP) x [0, q * STEP) holds
   * the tile pixels of the cells' configurations, the rest of the canvas
   * is `before`. A pass-through canvas is the input image, changed in
   * place; a rescaled canvas is new and the input is left alone.
   */
  method MarchingSquares(image: Image, contourMap: array<Image>, n: int, sample: (int, int) -> Pixel)
    returns (canvas: Image, grid: array2<byte>, ghost before: seq<Pixel>)
    requires n > 0 && image.Valid()
    requires TemplatesValid(contourMap) && DistinctFromTemplates(image, contourMap)
    requires Fits(image.x, image.y) ==> image.x == image.y
    modifies image.data
    ensures TemplatesValid(contourMap)
    ensures canvas.Valid() && canvas.x == canvas.y && |before| == canvas.x * canvas.y
    ensures GridShape(grid, canvas.x, canvas.y)
    ensures Fits(image.x, image.y) ==> canvas == image && before == old(image.data[..])
    ensures !Fits(image.x, image.y) ==>
              fresh(canvas.data) && canvas.x == RESCALE_X && canvas.y == RESCALE_Y &&
              image.data[..] == old(image.data[..]) &&
              forall i, j :: 0 <= i < canvas.x && 0 <= j < canvas.y ==>
                PixelAt(before, canvas.x, canvas.y, i, j) == sample(i, j)
    ensures 0 < canvas.x ==> GridIsBinary(grid)
    ensures 0 < canvas.x ==>
              forall i, j :: 0 <= i < grid.Length0 && 0 <= j < grid.Length1 ==>
                grid[i, j] == Binarize(PixelAt(before, canvas.x, canvas.y, Lattice(i, canvas.x), Lattice(j, canvas.y)))
    ensures forall r, c :: 0 <= r < canvas.x && 0 <= c < canvas.y ==>
              canvas.At(r, c) ==
                if r < canvas.x / STEP * STEP && c < canvas.y / STEP * STEP
                then Stamped(contourMap, grid, r, c)
                else PixelAt(before, canvas.x, canvas.y, r, c)
  {
    canvas := RescaleOrPassThrough(image, sample, n);
    before := canvas.data[..];
    AtMatchesContents(canvas);
    grid := AllocateGrid(canvas.x, canvas.y);
    FillGrid(canvas, grid, n);
    assert canvas.data[..] == before;
    assert forall r, c :: 0 <= r < canvas.x && 0 <= c < canvas.y ==>
             canvas.At(r, c) == PixelAt(before, canvas.x, canvas.y, r, c);
    MarchCells(canvas, contourMap, grid, n);
  }

  /** A canvas whose every pixel is bright gives an all-zero grid, and
      every cell then stamps tile 0, the empty contour. */
  lemma BrightCanvasStampsTileZero(contourMap: array<Image>, grid: array2<byte>, before: seq<Pixel>, x: nat, y: nat)
    requires 0 < x && 0 < y && |before| == x * y
    requires GridShape(grid, x, y) && TemplatesValid(contourMap)
    requires forall i, j :: 0 <= i < x && 0 <= j < y ==> Mean(PixelAt(before, x, y, i, j)) > SIGMA
    requires forall i, j :: 0 <= i < grid.Length0 && 0 <= j < grid.Length1 ==>
               grid[i, j] == Binarize(PixelAt(before, x, y, Lattice(i, x), Lattice(j, y)))
    ensures forall i, j :: 0 <= i < grid.Length0 && 0 <= j < grid.Length1 ==> grid[i, j] == 0
    ensures forall r, c :: 0 <= r < x / STEP * STEP && 0 <= c < y / STEP * STEP ==>
              Stamped(contourMap, grid, r, c) == TileRead(contourMap[0], r % STEP, c % STEP)
  {
    forall i, j | 0 <= i < grid.Length0 && 0 <= j < grid.Length1
      ensures grid[i, j] == 0
    {
      assert Mean(PixelAt(before, x, y, Lattice(i, x), Lattice(j, y))) > SIGMA;
    }
    forall r, c | 0 <= r < x / STEP * STEP && 0 <= c < y / STEP * STEP
      ensures Stamped(contourMap, grid, r, c) == TileRead(contourMap[0], r % STEP, c % STEP)
    {
      BrightGridConfigZero(grid, r / STEP, c / STEP);
    }
  }

  /**
   * The unwritten corner, as written. On an all-white 8-by-8 canvas
   * (p = q = 1) the three passes write grid[0][0], grid[0][1] and
   * grid[1][0] but not grid[1][1], which cell (0, 0) reads as its
   * bottom-right corner. If the allocation left the byte 8 there, the
   * configuration index is 16: one past the last contour tile.
   */
  method UnwrittenCornerIndex() returns (k: byte)
    ensures k == CONTOUR_CONFIG_COUNT as byte
  {
    var canvas := new Image(8, 8);
    canvas.data := new Pixel[64](_ => Pixel(255, 255, 255));
    var grid := AllocateGrid(8, 8);
    grid[1, 1] := 8;
    FillGridAsWritten(canvas, grid, 1);
    assert Binarize(Pixel(255, 255, 255)) == 0;
    k := Config(grid[0, 0], grid[0, 1], grid[1, 1], grid[1, 0]);
  }
}
