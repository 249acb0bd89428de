/**
 * update_image: copy a contour tile verbatim over a rectangle of the
 * canvas. The canvas is written with its own row stride (image.y); the
 * tile is read at contour.x * i + j, that is with row stride contour.x,
 * exactly as the program indexes it. For the square tiles the program
 * uses the two agree; for other shapes the reads stay inside the tile
 * only under TileReadsInBounds.
 */
module Contour {

  import opened Arith
  import opened Ppm

  /** The tile offsets read for a cx-by-cy tile stay below cx * cy. */
  predicate TileReadsInBounds(cx: int, cy: int) {
    cy == 0 || cx <= 1 || cx <= cy
  }

  lemma TileReadIndexInBounds(cx: int, cy: int, i: int, j: int)
    requires TileReadsInBounds(cx, cy)
    requires 0 <= i < cx && 0 <= j < cy
    ensures 0 <= PixelIndex(i, j, cx) < cx * cy
  {
    MulMonotone(0, i, cx);
    if cx == 1 {
      assert i == 0 && cx * cy == cy;
    } else {
      // i * cx + j <= (cx - 1) * cx + cy - 1 < cx * cy
      MulMonotone(i, cx - 1, cx);
      assert cx * cy - (cx - 1) * cx == (cx - 1) * (cy - cx) + cy;
      MulMonotone(0, cx - 1, cy - cx);
    }
  }

  /** The tile pixel update_image copies for offset (i, j) of the
      rectangle: contour.data[contour.x * i + j]. */
  function TileRead(contour: Image, i: int, j: int): Pixel
    reads contour, contour.data
    requires contour.Valid() && TileReadsInBounds(contour.x, contour.y)
    requires 0 <= i < contour.x && 0 <= j < contour.y
  {
    TileReadIndexInBounds(contour.x, contour.y, i, j);
    contour.data[PixelIndex(i, j, contour.x)]
  }

  /** TileReadsInBounds is exactly the condition under which every read
      of update_image stays inside the tile's buffer. */
  lemma TileReadsInBoundsExact(cx: nat, cy: nat)
    ensures TileReadsInBounds(cx, cy) <==>
            forall i, j :: 0 <= i < cx && 0 <= j < cy ==> PixelIndex(i, j, cx) < cx * cy
  {
    if TileReadsInBounds(cx, cy) {
      forall i, j | 0 <= i < cx && 0 <= j < cy
        ensures PixelIndex(i, j, cx) < cx * cy
      {
        TileReadIndexInBounds(cx, cy, i, j);
      }
    } else {
      // the last pixel of the tile, (cx - 1, cy - 1), is read past the end
      assert 0 <= cx - 1 < cx && 0 <= cy - 1 < cy;
      calc {
        PixelIndex(cx - 1, cy - 1, cx) - cx * cy;
        (cx - 1) * cx + cy - 1 - cx * cy;
        { assert (cx - 1) * cx - cx * cy == (cx - 1) * (cx - cy) - cy; }
        (cx - 1) * (cx - cy) - 1;
      >= { MulMonotone(1, cx - 1, cx - cy); }
        cx - cy - 1;
      >= 0;
      }
    }
  }

  /**
   * Overwrite the rectangle of `image` whose top-left pixel is (x, y)
   * with the pixels of `contour`. Pixel (x + i, y + j) receives tile
   * pixel contour.x * i + j; every other pixel of `image`, and the tile,
   * are left as they were.
   */
  method UpdateImage(image: Image, contour: Image, x: int, y: int)
    requires image.Valid() && contour.Valid() && image.data != contour.data
    requires 0 <= x && x + contour.x <= image.x
    requires 0 <= y && y + contour.y <= image.y
    requires TileReadsInBounds(contour.x, contour.y)
    modifies image.data
    ensures forall r, c :: 0 <= r < image.x && 0 <= c < image.y ==>
              image.At(r, c) ==
                if x <= r < x + contour.x && y <= c < y + contour.y
                then TileRead(contour, r - x, c - y)
                else old(image.At(r, c))
  {
    for i := 0 to contour.x
      invariant forall r, c :: 0 <= r < image.x && 0 <= c < image.y ==>
                  image.At(r, c) ==
                    if x <= r < x + i && y <= c < y + contour.y
                    then TileRead(contour, r - x, c - y)
                    else old(image.At(r, c))
    {
      for j := 0 to contour.y
        invariant forall r, c :: 0 <= r < image.x && 0 <= c < image.y ==>
                    image.At(r, c) ==
                      if (x <= r < x + i && y <= c < y + contour.y) || (r == x + i && y <= c < y + j)
                      then TileRead(contour, r - x, c - y)
                      else old(image.At(r, c))
      {
        var contourPixelIndex := contour.x * i + j;
        var imagePixelIndex := (x + i) * image.y + y + j;
        assert contourPixelIndex == PixelIndex(i, j, contour.x);
        assert imagePixelIndex == PixelIndex(x + i, y + j, image.y);
        TileReadIndexInBounds(contour.x, contour.y, i, j);
        PixelIndexInBounds(x + i, y + j, image.x, image.y);
        PixelIndexUnique(x + i, y + j, image.y);
        image.data[imagePixelIndex] := contour.data[contourPixelIndex];
      }
    }
  }
}
