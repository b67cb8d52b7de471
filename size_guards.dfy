/** Size limits that ReadImage applies to the pixel extent of the rendered cover page. */
module SizeGuards {

  /** The output format is BGRA: four bytes per pixel, fixed. */
  const BytesPerPixel: int := 4

  /** Largest value of a signed 32-bit int, the type of `size` and the row offsets. */
  const Int32Max: int := 0x7FFF_FFFF

  /** The two safety ceilings MAX_IMAGE_DIMENSION and MAX_IMAGE_PIXELS. */
  datatype Limits = Limits(maxDimension: nat, maxPixels: nat)

  /** What the two size guards decide about a pixel extent. */
  datatype SizeVerdict = SizeOk | AxisExceeded | PixelsExceeded

  function Abs(x: int): (r: nat)
    ensures r == x || r == -x
  {
    if x < 0 then -x else x
  }

  /** The per-axis check first, then the total pixel count. The source compares
      `abs((double)width * height)`; for ceilings below 2^53 that comparison
      agrees with the exact integer one used here. */
  function CheckSize(width: int, height: int, lim: Limits): (v: SizeVerdict)
    ensures v == AxisExceeded <==> width > lim.maxDimension || height > lim.maxDimension
    ensures v == PixelsExceeded <==>
      width <= lim.maxDimension && height <= lim.maxDimension && Abs(width * height) > lim.maxPixels
    ensures v == SizeOk && width >= 0 && height >= 0 ==>
      width * height * BytesPerPixel <= lim.maxPixels * BytesPerPixel
  {
    if width > lim.maxDimension || height > lim.maxDimension then AxisExceeded
    else if Abs(width * height) > lim.maxPixels then PixelsExceeded
    else SizeOk
  }

  /** The stride check: every engine row holds at least one packed output row. */
  predicate StrideSufficient(stride: int, width: int) {
    stride >= width * BytesPerPixel
  }

  /** When both ceilings leave room for the factor 4, an extent that passes the
      guards gives an output size and a row length that fit the source's `int`. */
  lemma PassingExtentFitsInt32(width: int, height: int, lim: Limits)
    requires BytesPerPixel * lim.maxDimension <= Int32Max
    requires BytesPerPixel * lim.maxPixels <= Int32Max
    requires width >= 0 && height >= 0
    requires CheckSize(width, height, lim) == SizeOk
    ensures width * BytesPerPixel <= Int32Max
    ensures width * BytesPerPixel * height <= Int32Max
  {
    assert width <= lim.maxDimension;
    assert width * height <= lim.maxPixels;
    assert width * BytesPerPixel * height == (width * height) * BytesPerPixel;
  }
}
