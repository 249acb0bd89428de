/**
 * The in-memory image: `x` rows of `y` pixels stored flat, pixel (i, j)
 * at data[i * y + j]. This is the layout every loop of the program uses
 * (update_image, the resampler, the grid sampler), whatever the file
 * reader calls width and height.
 */
module Ppm {

  import opened Arith

  /** An 8-bit colour channel (uint8_t / unsigned char). */
  newtype byte = b: int | 0 <= b < 256

  datatype Pixel = Pixel(red: byte, green: byte, blue: byte)

  /** Flat offset of pixel (i, j) in a buffer whose rows hold `y` pixels. */
  function PixelIndex(i: int, j: int, y: int): int {
    i * y + j
  }

  /** A pixel inside an x-by-y image has an offset inside its buffer. */
  lemma PixelIndexInBounds(i: int, j: int, x: int, y: int)
    requires 0 <= i < x && 0 <= j < y
    ensures 0 <= PixelIndex(i, j, y) < x * y
  {
    MulMonotone(0, i, y);
    MulMonotone(i + 1, x, y);
    assert (i + 1) * y == i * y + y;
  }

  /** Distinct pixels of a row-major buffer have distinct offsets. */
  lemma PixelIndexInjective(i: int, j: int, i': int, j': int, y: int)
    requires 0 <= j < y && 0 <= j' < y
    requires PixelIndex(i, j, y) == PixelIndex(i', j', y)
    ensures i == i' && j == j'
  {
    if i < i' {
      assert (i + 1) * y == i * y + y;
      MulMonotone(i + 1, i', y);
    } else if i' < i {
      assert (i' + 1) * y == i' * y + y;
      MulMonotone(i' + 1, i, y);
    }
  }

  /** The offset of pixel (i0, j0) belongs to no other pixel. */
  lemma PixelIndexUnique(i0: int, j0: int, y: int)
    requires 0 <= j0 < y
    ensures forall i, j :: 0 <= j < y && PixelIndex(i, j, y) == PixelIndex(i0, j0, y) ==> i == i0 && j == j0
  {
    forall i, j | 0 <= j < y && PixelIndex(i, j, y) == PixelIndex(i0, j0, y)
      ensures i == i0 && j == j0
    {
      PixelIndexInjective(i, j, i0, j0, y);
    }
  }

  /** Every offset of an x-by-y buffer is the offset of some pixel, so a
      statement about all pixels (i, j) is a statement about the whole buffer. */
  lemma EveryOffsetIsAPixel(k: int, x: nat, y: nat)
    requires 0 <= k < x * y
    ensures y > 0 && 0 <= k / y < x && 0 <= k % y < y
    ensures k == PixelIndex(k / y, k % y, y)
  {
    assert k == y * (k / y) + k % y;
    if k / y >= x {
      MulMonotone(x, k / y, y);
      assert false;
    }
  }

  /** Pixel (i, j) of an x-by-y buffer held as a sequence. */
  function PixelAt(s: seq<Pixel>, x: nat, y: nat, i: int, j: int): Pixel
    requires |s| == x * y && 0 <= i < x && 0 <= j < y
  {
    PixelIndexInBounds(i, j, x, y);
    s[PixelIndex(i, j, y)]
  }

  /** Two x-by-y buffers that agree on every pixel (i, j) are equal: a
      statement about all pixels is a statement about the whole buffer. */
  lemma PixelsDetermineBuffer(s: seq<Pixel>, t: seq<Pixel>, x: nat, y: nat)
    requires |s| == x * y && |t| == x * y
    requires forall i, j :: 0 <= i < x && 0 <= j < y ==> PixelAt(s, x, y, i, j) == PixelAt(t, x, y, i, j)
    ensures s == t
  {
    forall k | 0 <= k < x * y
      ensures s[k] == t[k]
    {
      EveryOffsetIsAPixel(k, x, y);
      assert PixelAt(s, x, y, k / y, k % y) == PixelAt(t, x, y, k / y, k % y);
    }
  }

  /** Pixel (i, j) of an image is pixel (i, j) of its buffer's contents. */
  lemma AtMatchesContents(image: Image)
    requires image.Valid()
    ensures forall i, j :: 0 <= i < image.x && 0 <= j < image.y ==>
              image.At(i, j) == PixelAt(image.data[..], image.x, image.y, i, j)
  {
    forall i, j | 0 <= i < image.x && 0 <= j < image.y
      ensures image.At(i, j) == PixelAt(image.data[..], image.x, image.y, i, j)
    {
      PixelIndexInBounds(i, j, image.x, image.y);
      assert image.data[..][PixelIndex(i, j, image.y)] == image.data[PixelIndex(i, j, image.y)];
    }
  }

  /**
   * An image (the program's ppm_image): `x` rows, `y` pixels per row and
   * the pixel buffer. Valid ties the buffer length to the dimensions.
   */
  class Image {
    var x: nat
    var y: nat
    var data: array<Pixel>

    ghost predicate Valid()
      reads this
    {
      data.Length == x * y
    }

    /** Pixel (i, j): data[i * y + j]. */
    function At(i: int, j: int): Pixel
      reads this, data
      requires Valid() && 0 <= i < x && 0 <= j < y
    {
      PixelIndexInBounds(i, j, x, y);
      data[PixelIndex(i, j, y)]
    }

    /** A fresh x-by-y image whose pixels are not specified. */
    constructor (x: nat, y: nat)
      ensures Valid() && this.x == x && this.y == y && fresh(data)
    {
      this.x := x;
      this.y := y;
      data := new Pixel[x * y];
    }
  }
}
