/**
 * Marching squares proper. Each cell (i, j), i < p, j < q, gets the
 * configuration index k = 8 * tl + 4 * tr + 2 * br + bl of its four grid
 * corners (top-left, top-right, bottom-right, bottom-left), stored in an
 * unsigned char, and contour tile k is stamped over the canvas at pixel
 * (i * STEP, j * STEP). The rows of cells are split among the workers.
 */
module March {

  import opened Ppm
  import opened Grid
  import opened Contour
  import Partition

  const CONTOUR_CONFIG_COUNT := 16

  /** The configuration index as the program computes it: an int sum
      stored into an unsigned char. Four bits give an index in [0, 15]. */
  function Config(tl: byte, tr: byte, br: byte, bl: byte): (k: byte)
    ensures tl <= 1 && tr <= 1 && br <= 1 && bl <= 1 ==> k < CONTOUR_CONFIG_COUNT as byte
  {
    ((8 * tl as int + 4 * tr as int + 2 * br as int + bl as int) % 256) as byte
  }

  datatype Corners = Corners(tl: byte, tr: byte, br: byte, bl: byte)

  /** The corner bits a configuration index stands for. */
  function Decode(k: byte): Corners {
    var v := k as int;
    Corners((v / 8 % 2) as byte, (v / 4 % 2) as byte, (v / 2 % 2) as byte, (v % 2) as byte)
  }

  /** Distinct corner patterns give distinct indices: decoding recovers
      the corners. */
  lemma DecodeConfig(tl: byte, tr: byte, br: byte, bl: byte)
    requires tl <= 1 && tr <= 1 && br <= 1 && bl <= 1
    ensures Decode(Config(tl, tr, br, bl)) == Corners(tl, tr, br, bl)
  {
    var a, b, c, d := tl as int, tr as int, br as int, bl as int;
    var v := Config(tl, tr, br, bl) as int;
    assert v == 8 * a + 4 * b + 2 * c + d;
    assert v / 8 == a;
    assert v / 4 == 2 * a + b;
    assert v / 2 == 4 * a + 2 * b + c;
  }

  /** Every index in [0, 15] is the configuration of some corner pattern. */
  lemma ConfigDecode(k: byte)
    requires k < CONTOUR_CONFIG_COUNT as byte
    ensures var c := Decode(k); Config(c.tl, c.tr, c.br, c.bl) == k
  {
    var v := k as int;
    assert v == 8 * (v / 8 % 2) + 4 * (v / 4 % 2) + 2 * (v / 2 % 2) + v % 2;
  }

  /** The configuration of cell (i, j). */
  function CellConfig(grid: array2<byte>, i: int, j: int): (k: byte)
    reads grid
    requires 0 <= i && i + 1 < grid.Length0 && 0 <= j && j + 1 < grid.Length1
    ensures grid[i, j] <= 1 && grid[i, j + 1] <= 1 && grid[i + 1, j + 1] <= 1 && grid[i + 1, j] <= 1 ==>
              k < CONTOUR_CONFIG_COUNT as byte
  {
    Config(grid[i, j], grid[i, j + 1], grid[i + 1, j + 1], grid[i + 1, j])
  }

  /** On an all-bright grid every cell has configuration 0. */
  lemma {:induction false} BrightGridConfigZero(grid: array2<byte>, i: int, j: int)
    requires forall a, b :: 0 <= a < grid.Length0 && 0 <= b < grid.Length1 ==> grid[a, b] == 0
    requires 0 <= i && i + 1 < grid.Length0 && 0 <= j && j + 1 < grid.Length1
    ensures CellConfig(grid, i, j) == 0
  {
    assert grid[i, j] == 0 && grid[i, j + 1] == 0 && grid[i + 1, j + 1] == 0 && grid[i + 1, j] == 0;
  }

  /** The sixteen contour tiles, each STEP by STEP. */
  ghost predicate TemplatesValid(contourMap: array<Image>)
    reads contourMap, contourMap[..]
  {
    contourMap.Length == CONTOUR_CONFIG_COUNT &&
    forall k :: 0 <= k < contourMap.Length ==>
      contourMap[k].Valid() && contourMap[k].x == STEP && contourMap[k].y == STEP
  }

  /** No tile shares its pixel buffer with the canvas. */
  ghost predicate DistinctFromTemplates(canvas: Image, contourMap: array<Image>)
    reads canvas, contourMap, contourMap[..]
  {
    forall k :: 0 <= k < contourMap.Length ==> contourMap[k].data != canvas.data
  }

  /** The entries the march reads are bits. When the canvas has at least
      one cell every entry is the corner of some cell; otherwise none is read. */
  ghost predicate CellsRead(canvas: Image, grid: array2<byte>)
    reads canvas, grid
  {
    0 < canvas.x / STEP && 0 < canvas.y / STEP ==> GridIsBinary(grid)
  }

  /** A pixel (r, c) lies in the tile of cell (i, j) exactly when (i, j) is
      (r / STEP, c / STEP): tiles of distinct cells never overlap. */
  lemma TileOwner(r: int, c: int, i: int, j: int)
    requires 0 <= r && 0 <= c
    ensures (i * STEP <= r < i * STEP + STEP && j * STEP <= c < j * STEP + STEP) <==>
            (i == r / STEP && j == c / STEP)
  {
  }

  /** The pixel the march leaves at (r, c) of the stamped area: pixel
      (r % STEP, c % STEP) of the tile chosen by cell (r / STEP, c / STEP). */
  function Stamped(contourMap: array<Image>, grid: array2<byte>, r: int, c: int): Pixel
    reads contourMap, contourMap[..], set k | 0 <= k < contourMap.Length :: contourMap[k].data
    reads grid
    requires TemplatesValid(contourMap) && GridIsBinary(grid)
    requires 0 <= r && r / STEP + 1 < grid.Length0 && 0 <= c && c / STEP + 1 < grid.Length1
  {
    var k := CellConfig(grid, r / STEP, c / STEP);
    TileRead(contourMap[k], r % STEP, c % STEP)
  }

  /** One cell of the march: the tile of configuration CellConfig(grid,
      i, j) is stamped over the cell's STEP-by-STEP square; every other
      canvas pixel is unchanged. */
  method StampCell(canvas: Image, contourMap: array<Image>, grid: array2<byte>, i: int, j: int)
    requires canvas.Valid() && TemplatesValid(contourMap) && DistinctFromTemplates(canvas, contourMap)
    requires GridShape(grid, canvas.x, canvas.y) && CellsRead(canvas, grid)
    requires 0 <= i < canvas.x / STEP && 0 <= j < canvas.y / STEP
    modifies canvas.data
    ensures forall r, c :: 0 <= r < canvas.x && 0 <= c < canvas.y ==>
              canvas.At(r, c) ==
                if i * STEP <= r < i * STEP + STEP && j * STEP <= c < j * STEP + STEP
                then Stamped(contourMap, grid, r, c)
                else old(canvas.At(r, c))
  {
    var k := Config(grid[i, j], grid[i, j + 1], grid[i + 1, j + 1], grid[i + 1, j]);
    UpdateImage(canvas, contourMap[k], i * STEP, j * STEP);
    forall r, c | i * STEP <= r < i * STEP + STEP && j * STEP <= c < j * STEP + STEP
      ensures Stamped(contourMap, grid, r, c) == TileRead(contourMap[k], r - i * STEP, c - j * STEP)
    {
      TileOwner(r, c, i, j);
    }
  }

  /** One worker's share of the march: cells of rows [lo, hi). Inside the
      rows' tiles each pixel is its cell's tile pixel; every other canvas
      pixel is unchanged. */
  method MarchRows(canvas: Image, contourMap: array<Image>, grid: array2<byte>, lo: int, hi: int)
    requires canvas.Valid() && TemplatesValid(contourMap) && DistinctFromTemplates(canvas, contourMap)
    requires GridShape(grid, canvas.x, canvas.y) && CellsRead(canvas, grid)
    requires 0 <= lo <= hi <= canvas.x / STEP
    modifies canvas.data
    ensures forall r, c :: 0 <= r < canvas.x && 0 <= c < canvas.y ==>
              canvas.At(r, c) ==
                if lo * STEP <= r < hi * STEP && c < canvas.y / STEP * STEP
                then Stamped(contourMap, grid, r, c)
                else old(canvas.At(r, c))
  {
    var q := canvas.y / STEP;
    for i := lo to hi
      invariant forall r, c :: 0 <= r < canvas.x && 0 <= c < canvas.y ==>
                  canvas.At(r, c) ==
                    if lo * STEP <= r < i * STEP && c < q * STEP
                    then Stamped(contourMap, grid, r, c)
                    else old(canvas.At(r, c))
    {
      for j := 0 to q
        invariant forall r, c :: 0 <= r < canvas.x && 0 <= c < canvas.y ==>
                    canvas.At(r, c) ==
                      if (lo * STEP <= r < i * STEP && c < q * STEP) ||
                         (i * STEP <= r < i * STEP + STEP && c < j * STEP)
                      then Stamped(contourMap, grid, r, c)
                      else old(canvas.At(r, c))
      {
        StampCell(canvas, contourMap, grid, i, j);
      }
    }
  }

  /** The march over all cells, rows [0, p) split among n workers: the
      area [0, p * STEP) x [0, q * STEP) is tiled, the rest unchanged. */
  method MarchCells(canvas: Image, contourMap: array<Image>, grid: array2<byte>, n: int)
    requires canvas.Valid() && TemplatesValid(contourMap) && DistinctFromTemplates(canvas, contourMap)
    requires GridShape(grid, canvas.x, canvas.y) && CellsRead(canvas, grid) && n > 0
    modifies canvas.data
    ensures forall r, c :: 0 <= r < canvas.x && 0 <= c < canvas.y ==>
              canvas.At(r, c) ==
                if r < canvas.x / STEP * STEP && c < canvas.y / STEP * STEP
                then Stamped(contourMap, grid, r, c)
                else old(canvas.At(r, c))
  {
    var p := canvas.x / STEP;
    Partition.StartWithin(0, p, n);
    for tid := 0 to n
      invariant 0 <= Partition.Start(tid, p, n) <= p
      invariant forall r, c :: 0 <= r < canvas.x && 0 <= c < canvas.y ==>
                  canvas.At(r, c) ==
                    if r < Partition.Start(tid, p, n) * STEP && c < canvas.y / STEP * STEP
                    then Stamped(contourMap, grid, r, c)
                    else old(canvas.At(r, c))
    {
      Partition.EndIsNextStart(tid, p, n);
      MarchRows(canvas, contourMap, grid, Partition.Start(tid, p, n), Partition.End(tid, p, n));
    }
    Partition.StartWithin(n, p, n);
  }
}
