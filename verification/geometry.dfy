/** Pixel geometry of the MNIST image buffer: the size constants and the
    flat-offset arithmetic the loader uses to address one pixel of one image. */
module Geometry {

  /** Width and height of an MNIST image, in pixels. */
  const Side: nat := 28

  /** Number of pixels in one image. */
  const Area: nat := Side * Side

  /** Number of images the loader skips, unconditionally, before the one it is asked for. */
  const ImageOffset: nat := 5800

  /** Flat index of the first pixel of the image the loader reads for index `imgI`. */
  function ImageStart(imgI: nat): nat
  {
    (imgI + ImageOffset) * Area
  }

  /** Flat index the loader reads for column `x`, row `y` of image `imgI`. */
  function PixelIndex(imgI: nat, x: nat, y: nat): nat
  {
    ImageStart(imgI) + y * Side + x
  }

  /** Column of the `k`-th pixel of an image in row-major order. */
  function ColumnOf(k: nat): nat
  {
    k % Side
  }

  /** Row of the `k`-th pixel of an image in row-major order. */
  function RowOf(k: nat): nat
  {
    k / Side
  }

  /** The `k`-th pixel in row-major order lies inside the image and the loader
      addresses it at offset `k` from the start of the image. */
  lemma StepPosition(imgI: nat, k: nat)
    requires k < Area
    ensures ColumnOf(k) < Side && RowOf(k) < Side
    ensures PixelIndex(imgI, ColumnOf(k), RowOf(k)) == ImageStart(imgI) + k
  {
  }

  /** Conversely, position `(x, y)` is the `(y * Side + x)`-th pixel in row-major order. */
  lemma PositionStep(x: nat, y: nat)
    requires x < Side && y < Side
    ensures y * Side + x < Area
    ensures ColumnOf(y * Side + x) == x && RowOf(y * Side + x) == y
  {
  }

  /** Reads are ordered row-major: a smaller flat index means an earlier row,
      or the same row and an earlier column, and conversely. */
  lemma RowMajorOrder(imgI: nat, x1: nat, y1: nat, x2: nat, y2: nat)
    requires x1 < Side && y1 < Side && x2 < Side && y2 < Side
    ensures PixelIndex(imgI, x1, y1) < PixelIndex(imgI, x2, y2) <==> y1 < y2 || (y1 == y2 && x1 < x2)
    ensures PixelIndex(imgI, x1, y1) == PixelIndex(imgI, x2, y2) <==> x1 == x2 && y1 == y2
  {
  }

  /** The set of flat indices the loader reads for image `imgI`. */
  function ImageReads(imgI: nat): set<nat>
  {
    set x: nat, y: nat | x < Side && y < Side :: PixelIndex(imgI, x, y)
  }

  /** The flat indices of the 784 positions are exactly the contiguous block
      that starts at `ImageStart(imgI)`: nothing outside it is read, nothing in it is skipped. */
  lemma ImageBlock(imgI: nat)
    ensures forall i: nat :: i in ImageReads(imgI) <==> ImageStart(imgI) <= i < ImageStart(imgI) + Area
  {
    forall i: nat | ImageStart(imgI) <= i < ImageStart(imgI) + Area
      ensures i in ImageReads(imgI)
    {
      var k := i - ImageStart(imgI);
      StepPosition(imgI, k);
      assert PixelIndex(imgI, ColumnOf(k), RowOf(k)) == i;
    }
  }
}
