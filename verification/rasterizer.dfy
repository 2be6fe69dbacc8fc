/** The rasterizer: fills a row-major intensity buffer with one escape-time
    byte per pixel of a rows-by-cols grid laid over a window of the complex
    plane. */
module Rasterizer {
  import opened CoordinateMap
  import opened Escape

  /** An unsigned 8-bit value; arithmetic on it is checked against 0..255. */
  newtype Byte = x: int | 0 <= x < 256

  /** The iteration limit used for every pixel. */
  const IterationLimit: nat := 255

  /** The intensity byte of an escape result: 0 for "did not escape", and
      255 minus the escape iteration, taken as a byte, otherwise. The cast of
      the iteration to a byte truncates modulo 256, and the byte subtraction
      never underflows. */
  function Intensity(r: Option<nat>): (b: Byte)
    ensures r.None? ==> b == 0
    ensures r.Some? ==> b as int == 255 - r.value % 256
  {
    match r
    case None => 0
    case Some(i) => 255 - (i % 256) as Byte
  }

  /** Reads an escape result back from an intensity byte. */
  function EscapeFromIntensity(b: Byte): Option<nat> {
    if b == 0 then None else Some(255 - b as int)
  }

  /** Every result of the escape test that the rasterizer can see (no escape,
      or an escape at an iteration from 1 to 254) is recovered from its
      intensity byte, so distinct results give distinct bytes. */
  lemma IntensityRoundTrip(r: Option<nat>)
    requires r.None? || 1 <= r.value < 255
    ensures Intensity(r) != 255
    ensures EscapeFromIntensity(Intensity(r)) == r
  {
  }

  /** The point of the complex plane that pixel (row, col) is evaluated at.
      The axes are cross-wired: the column is mapped from [0, rows] onto the
      imaginary parts of the corners and gives the real part, and the row is
      mapped from [0, cols] onto the real parts and gives the imaginary part.
      The ensures clauses are the two proportions this fixes: the real part
      moves col/rows of the way from upperLeft.im to lowerRight.im, and the
      imaginary part row/cols of the way from upperLeft.re to lowerRight.re. */
  function PixelPoint(rows: nat, cols: nat, upperLeft: Complex, lowerRight: Complex, row: nat, col: nat): (p: Complex)
    requires row < rows && col < cols
    ensures (p.re - upperLeft.im) * (rows as real) == (col as real) * (lowerRight.im - upperLeft.im)
    ensures (p.im - upperLeft.re) * (cols as real) == (row as real) * (lowerRight.re - upperLeft.re)
  {
    Complex(
      Affine(0.0, col as real, rows as real, upperLeft.im, lowerRight.im),
      Affine(0.0, row as real, cols as real, upperLeft.re, lowerRight.re))
  }

  /** The byte stored for pixel (row, col); it determines the escape result of
      the pixel's point, so no two escape results share a byte. */
  function PixelByte(rows: nat, cols: nat, upperLeft: Complex, lowerRight: Complex, row: nat, col: nat): (b: Byte)
    requires row < rows && col < cols
    ensures EscapeFromIntensity(b) == EscapeTime(PixelPoint(rows, cols, upperLeft, lowerRight, row, col), IterationLimit)
  {
    var p := PixelPoint(rows, cols, upperLeft, lowerRight, row, col);
    NeverEscapesAtZero(p, IterationLimit);
    EscapeTimeNoneIff(p, IterationLimit);
    IntensityRoundTrip(EscapeTime(p, IterationLimit));
    Intensity(EscapeTime(p, IterationLimit))
  }

  /** Every pixel is 0 exactly when its point does not escape within the limit;
      otherwise it lies in [1, 254] and encodes the escape iteration. */
  lemma PixelByteRange(rows: nat, cols: nat, upperLeft: Complex, lowerRight: Complex, row: nat, col: nat)
    requires row < rows && col < cols
    ensures var e := EscapeTime(PixelPoint(rows, cols, upperLeft, lowerRight, row, col), IterationLimit);
      && (PixelByte(rows, cols, upperLeft, lowerRight, row, col) == 0 <==> e.None?)
      && (e.Some? ==> 1 <= PixelByte(rows, cols, upperLeft, lowerRight, row, col) <= 254)
      && (e.Some? ==> e.value == 255 - PixelByte(rows, cols, upperLeft, lowerRight, row, col) as int)
  {
    var p := PixelPoint(rows, cols, upperLeft, lowerRight, row, col);
    NeverEscapesAtZero(p, IterationLimit);
    EscapeTimeNoneIff(p, IterationLimit);
  }

  /** A pixel whose point is the origin, which lies in the Mandelbrot set, is black. */
  lemma OriginPixelIsBlack(rows: nat, cols: nat, upperLeft: Complex, lowerRight: Complex, row: nat, col: nat)
    requires row < rows && col < cols
    requires PixelPoint(rows, cols, upperLeft, lowerRight, row, col) == Origin
    ensures PixelByte(rows, cols, upperLeft, lowerRight, row, col) == 0
  {
    OriginNeverEscapes(IterationLimit);
  }

  /** Pixel (0, 0) is evaluated at the upper-left corner, read with the axes
      cross-wired. */
  lemma PixelPointAtCorner(rows: nat, cols: nat, upperLeft: Complex, lowerRight: Complex)
    requires 0 < rows && 0 < cols
    ensures PixelPoint(rows, cols, upperLeft, lowerRight, 0, 0) == Complex(upperLeft.im, upperLeft.re)
  {
    AffineAtFloor(0.0, rows as real, upperLeft.im, lowerRight.im);
    AffineAtFloor(0.0, cols as real, upperLeft.re, lowerRight.re);
  }

  /** A pixel whose column does not exceed the row count, and whose row does
      not exceed the column count, is evaluated inside the window (read with
      the axes cross-wired). This covers every pixel of a square grid. */
  lemma PixelPointInWindow(rows: nat, cols: nat, upperLeft: Complex, lowerRight: Complex, row: nat, col: nat)
    requires row < rows && col < cols
    requires col <= rows && row <= cols
    ensures Between(PixelPoint(rows, cols, upperLeft, lowerRight, row, col).re, upperLeft.im, lowerRight.im)
    ensures Between(PixelPoint(rows, cols, upperLeft, lowerRight, row, col).im, upperLeft.re, lowerRight.re)
  {
    AffineBetween(0.0, col as real, rows as real, upperLeft.im, lowerRight.im);
    AffineBetween(0.0, row as real, cols as real, upperLeft.re, lowerRight.re);
  }

  /** On a grid wider than it is tall the column is extrapolated past the
      window: with one row and three columns over the window from 0 to 1+i,
      pixel (0, 2) is evaluated at real part 2. */
  lemma PixelPointLeavesWideWindow()
    ensures PixelPoint(1, 3, Origin, Complex(1.0, 1.0), 0, 2).re == 2.0
    ensures !Between(PixelPoint(1, 3, Origin, Complex(1.0, 1.0), 0, 2).re, Origin.im, 1.0)
  {
  }

  /** The offset of (row, col) in a row-major buffer of `cols` columns lies
      inside a buffer of rows * cols bytes. */
  lemma OffsetInBounds(rows: nat, cols: nat, row: nat, col: nat)
    requires row < rows && col < cols
    ensures row * cols + col < rows * cols
  {
    assert (row + 1) * cols <= rows * cols by {
      MulMonotone(row + 1, rows, cols);
    }
  }

  lemma MulMonotone(a: nat, b: nat, k: nat)
    requires a <= b
    ensures a * k <= b * k
  {
    assert b * k == a * k + (b - a) * k;
  }

  /** Division and remainder by `cols` recover (row, col) from its offset. */
  lemma OffsetSplit(cols: nat, row: nat, col: nat)
    requires col < cols
    ensures (row * cols + col) / cols == row
    ensures (row * cols + col) % cols == col
  {
    var k := row * cols + col;
    var q, r := k / cols, k % cols;
    assert q * cols + r == row * cols + col;
    if q < row {
      MulMonotone(q + 1, row, cols);
      assert false;
    } else if q > row {
      MulMonotone(row + 1, q, cols);
      assert false;
    }
  }

  /** Every offset below rows * cols is the offset of exactly one pixel:
      together with OffsetInBounds and OffsetSplit, the map from (row, col)
      to row * cols + col is a bijection onto [0, rows * cols). */
  lemma OffsetOfIndex(rows: nat, cols: nat, k: nat)
    requires k < rows * cols
    ensures 0 < cols && k / cols < rows && k % cols < cols
    ensures (k / cols) * cols + k % cols == k
  {
    if k / cols >= rows {
      MulMonotone(rows, k / cols, cols);
      assert false;
    }
  }

  /** Two pixels of the grid with the same offset are the same pixel. */
  lemma OffsetInjective(cols: nat, row1: nat, col1: nat, row2: nat, col2: nat)
    requires col1 < cols && col2 < cols
    requires row1 * cols + col1 == row2 * cols + col2
    ensures row1 == row2 && col1 == col2
  {
    OffsetSplit(cols, row1, col1);
    OffsetSplit(cols, row2, col2);
  }

  /** The finished buffer: the byte at offset k belongs to pixel
      (k / cols, k % cols). */
  function RasterImage(rows: nat, cols: nat, upperLeft: Complex, lowerRight: Complex): (image: seq<Byte>)
    ensures |image| == rows * cols
  {
    seq(rows * cols, k requires 0 <= k < rows * cols =>
      OffsetOfIndex(rows, cols, k);
      PixelByte(rows, cols, upperLeft, lowerRight, k / cols, k % cols))
  }

  /** The finished buffer holds pixel (row, col) at offset row * cols + col. */
  lemma RasterImageAt(rows: nat, cols: nat, upperLeft: Complex, lowerRight: Complex, row: nat, col: nat)
    requires row < rows && col < cols
    ensures row * cols + col < |RasterImage(rows, cols, upperLeft, lowerRight)|
    ensures RasterImage(rows, cols, upperLeft, lowerRight)[row * cols + col]
         == PixelByte(rows, cols, upperLeft, lowerRight, row, col)
  {
    OffsetInBounds(rows, cols, row, col);
    OffsetSplit(cols, row, col);
  }

  /** Renders the window into `pixels`, which must hold exactly rows * cols
      bytes. Rows are visited in order and, within a row, columns in order;
      `writes` lists the offsets written, in the order they are written. */
  method Render(pixels: array<Byte>, rows: nat, cols: nat, upperLeft: Complex, lowerRight: Complex)
    returns (ghost writes: seq<nat>)
    requires pixels.Length == rows * cols
    modifies pixels
    ensures pixels[..] == RasterImage(rows, cols, upperLeft, lowerRight)
    ensures |writes| == pixels.Length
    ensures forall k :: 0 <= k < |writes| ==> writes[k] == k
  {
    ghost var image := RasterImage(rows, cols, upperLeft, lowerRight);
    writes := [];
    for row := 0 to rows
      invariant |writes| == row * cols <= pixels.Length
      invariant forall k :: 0 <= k < |writes| ==> writes[k] == k
      invariant forall k :: 0 <= k < |writes| ==> pixels[k] == image[k]
    {
      for col := 0 to cols
        invariant |writes| == row * cols + col <= pixels.Length
        invariant forall k :: 0 <= k < |writes| ==> writes[k] == k
        invariant forall k :: 0 <= k < |writes| ==> pixels[k] == image[k]
      {
        var point := PixelPoint(rows, cols, upperLeft, lowerRight, row, col);
        var zValue := PointZValue(point, IterationLimit);
        RasterImageAt(rows, cols, upperLeft, lowerRight, row, col);
        pixels[row * cols + col] := Intensity(zValue);
        writes := writes + [row * cols + col];
      }
      assert row * cols + cols == (row + 1) * cols;
    }
  }
}
