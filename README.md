# Marching squares over a PPM canvas

A Dafny model of the computational core of `src/tema1_par.c`, a
multi-threaded marching-squares contour generator. The program reads a PPM
image, resamples it bicubically to exactly 2048 x 2048 when either side
exceeds 2048 (so a side shorter than 2048 is stretched, not kept),
samples the canvas every `STEP` = 8 pixels into a binary grid (0 for a
bright sample, whose integer channel mean exceeds `SIGMA` = 200, 1
otherwise), classifies each grid cell by the 4-bit index
`k = 8*tl + 4*tr + 2*br + bl` of its corners and stamps contour tile `k`
over the cell's 8 x 8 square of the canvas, in place.

The threads and barriers are replaced by sequential phases. Every phase is
a loop over the workers `tid` in `[0, n)`, each running its worker method
on the index range `[tid*T/n, Min((tid+1)*T/n, T))`; the barriers separate
the phases, so the phases in sequence are what every worker observes. The
partition lemmas prove that these ranges are consecutive, pairwise
disjoint and cover `[0, T)`, which is what keeps the unlocked writes to the
shared buffers apart. No phase's postcondition mentions `n`, so the model
computes the same canvas and grid for every thread count.

Modules, one per part of the program:

- `Arith`: monotonicity facts for multiplication and division.
- `Partition`: the `start` / `end` formula and its coverage lemmas.
- `Ppm`: pixels of three bytes and the `Image` class with its flat buffer,
  pixel `(i, j)` at `data[i * y + j]`.
- `Contour`: `update_image`, copying a tile into a rectangle of the canvas.
- `Grid`: binarisation and the three grid passes (interior, last column,
  last row), plus the missing corner entry (see Findings).
- `March`: the configuration index and the march over all cells.
- `Rescale`: the choice between the input image and a fresh 2048 x 2048
  canvas.
- `Pipeline`: the phases in order, and two consequences.

## Model

| member | source | states |
|---|---|---|
| Partition.Start | src/tema1_par.c:74 | the first index of worker tid, tid * T / n, lies in [0, T] for every worker 0 <= tid <= n |
| Partition.End | src/tema1_par.c:75 | one past the last index of worker tid, Min((tid + 1) * T / n, T), lies between the worker's start and T |
| Partition.StartMonotone | src/tema1_par.c:74 | a later worker's range never starts before an earlier worker's |
| Partition.StartWithin | src/tema1_par.c:74-75 | every start lies in [0, T]; worker 0 starts at 0 and the start one past the last worker is T |
| Partition.EndIsNextStart | src/tema1_par.c:74-75 | each range is well formed inside [0, T] and ends exactly where the next worker's range starts, so no index is skipped |
| Partition.RangesDisjoint | src/tema1_par.c:133-134 | the ranges of two distinct workers share no index, so no index is written twice |
| Partition.RangesCover | src/tema1_par.c:146-147 | every index of [0, T) belongs to the range of exactly one worker |
| Ppm.PixelIndexInBounds | src/tema1_par.c:36 | pixel (i, j) of an x-by-y image has its offset i * y + j inside [0, x * y) |
| Ppm.PixelIndexInjective | src/tema1_par.c:36 | two pixels with columns below y and the same offset are the same pixel |
| Ppm.EveryOffsetIsAPixel | src/tema1_par.c:111 | every offset of an x-by-y buffer is the offset of the pixel (k / y, k % y) |
| Ppm.PixelsDetermineBuffer | src/tema1_par.c:36 | two x-by-y buffers that agree at every pixel (i, j) are equal, so the pixel-wise contracts below fix the whole buffer |
| Ppm.Image.constructor | src/tema1_par.c:92-95 | a fresh image has the given dimensions and a buffer of x * y pixels |
| Contour.TileReadIndexInBounds | src/tema1_par.c:35 | under TileReadsInBounds the tile offset contour.x * i + j stays inside the tile's buffer |
| Contour.TileReadsInBoundsExact | src/tema1_par.c:35 | TileReadsInBounds holds exactly when every tile read of update_image is inside the tile, in both directions |
| Contour.UpdateImage | src/tema1_par.c:32-43 | canvas pixel (x + i, y + j) becomes tile pixel contour.x * i + j for the whole tile rectangle; every other canvas pixel is unchanged; the tile is not written |
| Grid.Mean | src/tema1_par.c:153 | the integer mean of the three channels fits an unsigned char |
| Grid.Binarize | src/tema1_par.c:153-159 | a grid entry is a bit, and it is 0 exactly when the channel mean exceeds SIGMA |
| Grid.LastColumnSample | src/tema1_par.c:168 | the last-column offset i * STEP * y + x - 1 lies inside the buffer for every row i < q of a non-empty square canvas |
| Grid.LastColumnSampleIsRightEdge | src/tema1_par.c:168 | the last-column sample i * STEP * y + x - 1 is the rightmost pixel of lattice row i * STEP exactly when x == y |
| Grid.LastRowSampleInLastRow | src/tema1_par.c:185 | the last-row sample (x - 1) * y + j * STEP lies in the buffer, in row x - 1, exactly when column j * STEP exists |
| Grid.AllocateGrid | src/tema1_par.c:130-142 | the grid has p + 1 rows of y / STEP + 1 entries each, contents unspecified |
| Grid.FillInteriorRows | src/tema1_par.c:149-162 | for rows [lo, hi) and j < q, entry (i, j) is the binarised pixel (i * STEP, j * STEP); all other entries unchanged |
| Grid.FillInterior | src/tema1_par.c:146-162 | the interior pass over all workers binarises every (i, j), i < p, j < q, and writes nothing else |
| Grid.FillLastColumnRows | src/tema1_par.c:167-177 | for rows [lo, hi), entry (i, q) is the binarised pixel (i * STEP, x - 1); all other entries unchanged |
| Grid.FillLastColumn | src/tema1_par.c:164-177 | on a square canvas the last-column pass fills entry q of every row i < q from the canvas's right edge and writes nothing else |
| Grid.FillLastRowColumns | src/tema1_par.c:184-194 | when column (hi - 1) * STEP exists, entry (p, j) for j in [lo, hi) is the binarised pixel (x - 1, j * STEP); all other entries unchanged |
| Grid.FillLastRow | src/tema1_par.c:181-194 | when column (p - 1) * STEP exists (always on a square canvas), the last-row pass fills entry j of row p for every j < p from the canvas's bottom edge and writes nothing else |
| Grid.FillGridAsWritten | src/tema1_par.c:146-194 | the three passes fill every entry except (p, q) from its lattice point; entry (p, q) keeps what the allocation left |
| Grid.FillCorner | src/tema1_par.c:210 | (correction, not in the program) entry (p, q), the bottom-right corner of the last cell, is the binarised bottom-right pixel; nothing else changes |
| Grid.FillGrid | src/tema1_par.c:146-194 | (correction, not in the program: the three passes plus Grid.FillCorner) on a non-empty square canvas every grid entry (i, j) is the binarised pixel at (Lattice(i, x), Lattice(j, y)), so the whole grid is binary |
| March.Config | src/tema1_par.c:210 | with four bit corners the configuration index is below CONTOUR_CONFIG_COUNT = 16 |
| March.CellConfig | src/tema1_par.c:210 | the index of cell (i, j) read from grid[i][j], grid[i][j + 1], grid[i + 1][j + 1], grid[i + 1][j] is below 16 whenever those four entries are bits |
| March.DecodeConfig | src/tema1_par.c:210 | decoding a configuration index recovers its four corner bits, so distinct corner patterns give distinct indices |
| March.ConfigDecode | src/tema1_par.c:210 | every index in [0, 15] is the configuration of the corners it decodes to |
| March.BrightGridConfigZero | src/tema1_par.c:210 | on an all-zero grid every cell has configuration 0 |
| March.TileOwner | src/tema1_par.c:211 | a pixel lies in the tile of cell (i, j) exactly when (i, j) is (r / STEP, c / STEP), so tiles of distinct cells never overlap |
| March.StampCell | src/tema1_par.c:210-211 | the cell's square becomes the tile of its configuration; every other canvas pixel is unchanged |
| March.MarchRows | src/tema1_par.c:208-213 | for the cells of rows [lo, hi) every pixel of their squares is the pixel of its own cell's tile; the rest of the canvas is unchanged |
| March.MarchCells | src/tema1_par.c:204-213 | after the march over all workers, [0, p * STEP) x [0, q * STEP) is tiled cell by cell and every pixel outside it is unchanged |
| Rescale.Fits | src/tema1_par.c:91 | the pass-through test x <= 2048 and y <= 2048; a canvas that passes it has at most 2048 * 2048 pixels |
| Rescale.ResampleRows | src/tema1_par.c:104-115 | rows [lo, hi) of the scaled buffer receive the resampler's pixels at data[i * y + j]; other rows unchanged |
| Rescale.RescaleOrPassThrough | src/tema1_par.c:91-122 | a canvas within 2048 x 2048 is the input image itself; otherwise the canvas is a fresh 2048 x 2048 image with every pixel from the resampler; either way the canvas fits |
| Pipeline.MarchingSquares | src/tema1_par.c:87-213 | the whole pipeline, with the corrected grid (see Left out): canvas shape, every grid entry from its lattice pixel of the canvas before the march, the tiled area stamped cell by cell, the rest untouched; independent of the thread count |
| Pipeline.BrightCanvasStampsTileZero | src/tema1_par.c:149-211 | a canvas whose pixels are all bright gives an all-zero grid, and every stamped pixel then comes from tile 0 |
| Pipeline.UnwrittenCornerIndex | src/tema1_par.c:164-210 | with the three passes as written, an 8 x 8 white canvas and the byte 8 left in grid[1][1], the configuration index of cell (0, 0) is 16 |

## Left out

- Threads, barriers, thread creation and join: replaced by sequential phases over the same index ranges, with the partition lemmas standing for the absence of overlapping writes.
- The program's concurrency defects are not modelled: each worker reading its own copy of the input, each worker allocating the shared scaled buffer, barriers inside loops with unequal trip counts.
- March.MarchCells: in the pass-through case each worker reads its own copy of the input and marches all rows of that copy with the shared grid, so the workers write the same values into different buffers; the model marches one canvas, rows split among the workers, which ends with the pixels every copy ends with.
- Bicubic resampling (`sample_bicubic`) works in floating point on code that is not part of this model; Rescale takes it as the parameter `sample`, whose pixel values are not specified.
- Rescale.RescaleOrPassThrough: freeing the input image after resampling is memory management and is not modelled; the input is left unchanged.
- PPM reading and P6 writing, template file names and loading: file I/O. The partition of the 16 template loads uses the same formula and is covered by the Partition lemmas; March.TemplatesValid states what the loaded templates are assumed to be (16 tiles of 8 x 8).
- `free_resources`, malloc failure checks and `exit` paths: memory management and process exit.
- `main`'s argument handling and the struct-to-`argv` cast at line 64: I/O glue.
- Grid.AllocateGrid: the per-row `malloc` of the grid is one two-dimensional allocation here; its contents are unspecified, as malloc leaves them.
- Grid.FillLastColumnRows, Grid.FillLastColumn, Grid.FillGridAsWritten and Grid.FillGrid require a square canvas (x == y), the condition under which the last-column pass samples the right edge and fills the whole edge column; the program assumes it silently.
- Grid.FillLastRowColumns and Grid.FillLastRow require only that the last sampled column exists (LastRowColumnsExist), which a square canvas satisfies.
- Pipeline.MarchingSquares: builds the grid with Grid.FillGrid, which adds Grid.FillCorner; the program leaves grid[p][q] unwritten (see Findings), and Grid.FillGridAsWritten is the model of the program's passes.
- Pipeline.MarchingSquares requires a canvas that fits to be square, for the same reason; a rescaled canvas is always square.
- Contour.UpdateImage requires TileReadsInBounds on the tile's shape (true for the square tiles used) and a tile buffer distinct from the canvas buffer.
- C `int` overflow: every canvas fits in 2048 x 2048 (Rescale.RescaleOrPassThrough, Rescale.Fits), so every pixel offset is below 2048 * 2048 and no index arithmetic wraps; it is not modelled.

## Findings

| source | as written | input that shows it | evidently intended | confidence | as-written member | corrected member |
|---|---|---|---|---|---|---|
| src/tema1_par.c:164-210 | the interior, last-column and last-row passes never write grid[p][q], but the march reads it as the bottom-right corner of cell (p - 1, q - 1) | an 8 x 8 white canvas (p = q = 1) whose grid[1][1] holds the byte 8 after malloc: k = 0 + 0 + 2 * 8 + 0 = 16, one past the last contour tile | grid[p][q] sampled like the other edge entries, from the bottom-right pixel (x - 1, y - 1), giving a bit and an index below 16 | high that the entry is unwritten, medium on the intended sample; not executed | Grid.FillGridAsWritten, Pipeline.UnwrittenCornerIndex | Grid.FillGrid |
