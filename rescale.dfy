/**
 * The canvas the program marches: the input image itself when it fits in
 * RESCALE_X by RESCALE_Y, otherwise a fresh RESCALE_X by RESCALE_Y image
 * filled row by row (rows split among the workers) from the bicubic
 * resampler. The resampler works in floating point on the source image;
 * here it is the parameter `sample`, whose values are not specified:
 * sample(i, j) stands for the resampler's pixel at normalised coordinates
 * (i / (RESCALE_X - 1), j / (RESCALE_Y - 1)).
 */
module Rescale {

  import opened Arith
  import opened Ppm
  import Partition

  const RESCALE_X := 2048
  const RESCALE_Y := 2048

  /** The test that decides between passing the input through and
      resampling it. A canvas that fits has at most RESCALE_X * RESCALE_Y
      pixels, so its offsets stay far below the range of a C int. */
  function Fits(x: int, y: int): (b: bool)
    ensures b && 0 <= x && 0 <= y ==> x * y <= RESCALE_X * RESCALE_Y
  {
    if x <= RESCALE_X && y <= RESCALE_Y then
      if 0 <= x && 0 <= y then
        MulMonotone(x, RESCALE_X, y);
        MulMonotone(y, RESCALE_Y, RESCALE_X);
        true
      else
        true
    else
      false
  }

  /** One worker's rows [lo, hi) of the resampled image. */
  method ResampleRows(scaled: Image, sample: (int, int) -> Pixel, lo: int, hi: int)
    requires scaled.Valid() && 0 <= lo <= hi <= scaled.x
    modifies scaled.data
    ensures forall i, j :: 0 <= i < scaled.x && 0 <= j < scaled.y ==>
              scaled.At(i, j) == if lo <= i < hi then sample(i, j) else old(scaled.At(i, j))
  {
    for i := lo to hi
      invariant forall i', j :: 0 <= i' < scaled.x && 0 <= j < scaled.y ==>
                  scaled.At(i', j) == if lo <= i' < i then sample(i', j) else old(scaled.At(i', j))
    {
      for j := 0 to scaled.y
        invariant forall i', j' :: 0 <= i' < scaled.x && 0 <= j' < scaled.y ==>
                    scaled.At(i', j') ==
                      if lo <= i' < i || (i' == i && j' < j) then sample(i', j') else old(scaled.At(i', j'))
      {
        PixelIndexInBounds(i, j, scaled.x, scaled.y);
        PixelIndexUnique(i, j, scaled.y);
        scaled.data[i * scaled.y + j] := sample(i, j);
      }
    }
  }

  /** The rescale-or-pass-through choice. A canvas that fits is the input
      image itself, untouched; otherwise the canvas is a new image of
      exactly RESCALE_X by RESCALE_Y whose pixel (i, j) is sample(i, j). */
  method RescaleOrPassThrough(image: Image, sample: (int, int) -> Pixel, n: int) returns (canvas: Image)
    requires image.Valid() && n > 0
    ensures canvas.Valid() && Fits(canvas.x, canvas.y)
    ensures Fits(image.x, image.y) ==> canvas == image
    ensures !Fits(image.x, image.y) ==>
              fresh(canvas) && fresh(canvas.data) &&
              canvas.x == RESCALE_X && canvas.y == RESCALE_Y &&
              forall i, j :: 0 <= i < canvas.x && 0 <= j < canvas.y ==> canvas.At(i, j) == sample(i, j)
  {
    if !Fits(image.x, image.y) {
      canvas := new Image(RESCALE_X, RESCALE_Y);
      var total := canvas.x;
      Partition.StartWithin(0, total, n);
      for tid := 0 to n
        invariant 0 <= Partition.Start(tid, total, n) <= total
        invariant fresh(canvas) && fresh(canvas.data)
        invariant canvas.Valid() && canvas.x == RESCALE_X && canvas.y == RESCALE_Y
        invariant forall i, j :: 0 <= i < canvas.x && 0 <= j < canvas.y ==>
                    i < Partition.Start(tid, total, n) ==> canvas.At(i, j) == sample(i, j)
      {
        Partition.EndIsNextStart(tid, total, n);
        ResampleRows(canvas, sample, Partition.Start(tid, total, n), Partition.End(tid, total, n));
      }
      Partition.StartWithin(n, total, n);
    } else {
      canvas := image;
    }
  }
}
