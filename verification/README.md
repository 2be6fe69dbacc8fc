# Mandelbrot renderer, modelled in Dafny

This project models the rendering core of a small Mandelbrot-set generator. The generator maps a
rectangular window of the complex plane onto a grid of pixels and classifies each pixel by
escape time. It then writes one grayscale byte per pixel into a caller-owned, row-major buffer.
The core has three parts, one Dafny module each:

- `CoordinateMap` (`coordinate_map.dfy`): `Affine`, the linear interpolation from a source
  interval onto a target interval (`affine`).
- `Escape` (`escape.dfy`): complex numbers as pairs of reals, and the orbit `z := z*z + c`
  from `z = 0` as the recursive function `Orbit`. `EscapeTime` is the escape-time result as a
  function. `PointZValue` is the imperative loop of `point_z_value`: a mutable `z` and an early
  return. It is proved equal to "the first n below the limit with `NormSqr(Orbit(c, n)) > 4`".
- `Rasterizer` (`rasterizer.dfy`): `Render` fills an `array<Byte>` in place with nested row and
  column loops (`render`). `Byte` is a newtype over 0..255, so the `u8` subtraction
  `255 - i` is checked for underflow.

Floating-point numbers (`f64`) are modelled as exact `real`s. Every statement about coordinates
holds in exact arithmetic, not bit for bit in IEEE-754.

Points the model keeps exactly as the code has them:

- The axes are cross-wired. A pixel's real part comes from its column, mapped from `[0, rows]`
  onto the imaginary parts of the corners. Its imaginary part comes from its row, mapped from
  `[0, cols]` onto the real parts of the corners. `PixelPointAtCorner` and `PixelPointInWindow`
  state the consequences. `PixelPointLeavesWideWindow` shows that on a grid with more columns
  than rows, a column is extrapolated past the window.
- Escaped pixels get `255 - i` with `1 <= i <= 254`, so their bytes lie in `[1, 254]`. Read
  naively, `255 - i` would range over `[1, 255]`; the code cannot produce 255, because
  iteration 0 never escapes (`PixelByteRange`).
- The buffer length check in `render` is a fatal assertion, not a recoverable error. It is the
  precondition `pixels.Length == rows * cols` of `Render`.

`Render`'s postcondition sets the whole buffer to `RasterImage(rows, cols, upperLeft,
lowerRight)`, a function of the inputs alone. So rendering the same grid and window twice
yields identical buffers. Its ghost result `writes` is the list of offsets written, in order.
It is exactly `0, 1, ..., rows*cols - 1`, so every slot is written once and only once.

## Model

| member | source | states |
|---|---|---|
| `CoordinateMap.Affine` | src/main.rs:7-9 | the result r satisfies the defining proportion (r - floorOut) * (ceilIn - floorIn) == (val - floorIn) * (ceilOut - floorOut); the source width must be nonzero |
| `CoordinateMap.AffineAtFloor` | src/main.rs:7-9 | mapping floorIn yields exactly floorOut |
| `CoordinateMap.AffineAtCeil` | src/main.rs:7-9 | mapping ceilIn yields exactly ceilOut (in exact arithmetic) |
| `CoordinateMap.AffineInverse` | src/main.rs:7-9 | mapping back with the intervals exchanged recovers the input, so the map is a bijection when both widths are nonzero |
| `CoordinateMap.AffineBetween` | src/main.rs:7-9 | a value inside the source interval maps inside the target interval (there is no clamping, only extrapolation outside it) |
| `Escape.Add` | src/main.rs:17 | complex addition, componentwise; a definition (no contract), used by `Step` |
| `Escape.Mul` | src/main.rs:17 | complex multiplication as the complex-number library defines it; a definition (no contract), used by `Step` |
| `Escape.Step` | src/main.rs:17 | one update z * z + c; a definition (no contract), whose behaviour at the origin is stated by `Escape.StepFromOrigin` |
| `Escape.StepFromOrigin` | src/main.rs:12-17 | one step from the starting value 0 lands on c, so the first iterate is c itself |
| `Escape.Orbit` | src/main.rs:12-17 | the iterate z after n updates from z = 0; a definition (no contract), tied to the loop by the invariant of `Escape.PointZValue` |
| `Escape.Escapes` | src/main.rs:14 | the escape test at iteration n: squared magnitude of the n-th iterate strictly above 4, taken before that iteration's update; a definition (no contract), used by `Escape.EscapeTime` |
| `Escape.NormSqr` | src/main.rs:14 | the squared magnitude used by the escape test is never negative |
| `Escape.EscapeTime` | src/main.rs:11-19 | the result is the first iteration below the limit whose iterate has squared magnitude above 4, with every earlier iterate at most 4; or None when no iteration below the limit qualifies |
| `Escape.FirstEscapeUnique` | src/main.rs:11-19 | at most one result satisfies the first-escape property, so the function and the loop must agree |
| `Escape.PointZValue` | src/main.rs:11-19 | the loop with a mutable z and an early return yields the first-escape result for the orbit from 0, and equals EscapeTime |
| `Escape.EscapeTimeNoneIff` | src/main.rs:13-19 | None exactly when no iteration in [0, limit) escapes, and Some(i) only with i < limit |
| `Escape.NeverEscapesAtZero` | src/main.rs:12-16 | the result is never Some(0), since z starts at 0 |
| `Escape.EscapeTimeLimitMonotone` | src/main.rs:13-19 | raising the limit keeps an escape already found, and lowering it keeps None |
| `Escape.LargePointEscapesAtOne` | src/main.rs:12-17 | if the squared magnitude of c exceeds 4 and the limit is at least 2, the result is Some(1) |
| `Escape.OriginNeverEscapes` | src/main.rs:12-19 | c = 0 gives None for every limit |
| `Escape.MinusOneNeverEscapes` | src/main.rs:12-19 | c = -1 (orbit 0, -1, 0, ...) gives None for every limit |
| `Escape.OnePlusIEscapesAtTwo` | src/main.rs:12-19 | c = 1+i (orbit 0, 1+i, 1+3i) gives Some(2) when the limit is at least 3 and None otherwise |
| `Rasterizer.IterationLimit` | src/main.rs:47 | every pixel is tested with 255 iterations; a constant |
| `Rasterizer.Intensity` | src/main.rs:47-50 | "did not escape" gives byte 0; an escape at i gives 255 - (i mod 256), the truncating byte cast followed by a byte subtraction that cannot underflow |
| `Rasterizer.IntensityRoundTrip` | src/main.rs:47-50 | every escape result the renderer can see is recovered from its byte, so the byte encoding loses nothing and never yields 255 |
| `Rasterizer.PixelByteRange` | src/main.rs:47-50 | a pixel is 0 exactly when its point does not escape within 255 iterations; otherwise it lies in [1, 254] and equals 255 minus the escape iteration |
| `Rasterizer.PixelPoint` | src/main.rs:31-46 | the point of pixel (row, col), with the axes cross-wired: its real part lies col/rows of the way from upperLeft.im to lowerRight.im, and its imaginary part row/cols of the way from upperLeft.re to lowerRight.re; only callable for pixels of the grid, so the coordinate map always gets a nonzero source width |
| `Rasterizer.PixelByte` | src/main.rs:47-50 | the byte of pixel (row, col) decodes back to the escape result of the pixel's point with limit 255, so the byte loses no information about it |
| `Rasterizer.OriginPixelIsBlack` | src/main.rs:31-50 | a pixel evaluated at the origin is black (0) |
| `Rasterizer.PixelPointAtCorner` | src/main.rs:31-46 | pixel (0, 0) is evaluated at (upperLeft.im, upperLeft.re), the upper-left corner with the axes cross-wired |
| `Rasterizer.PixelPointInWindow` | src/main.rs:31-46 | a pixel with col <= rows and row <= cols is evaluated inside the window with the axes cross-wired; this holds for every pixel of a square grid |
| `Rasterizer.PixelPointLeavesWideWindow` | src/main.rs:31-46 | on a 1-by-3 grid over the window from 0 to 1+i, pixel (0, 2) is evaluated at real part 2, outside the window |
| `Rasterizer.OffsetInBounds` | src/main.rs:29-47 | for row < rows and col < cols, the offset row * cols + col is inside a buffer of rows * cols bytes |
| `Rasterizer.OffsetSplit` | src/main.rs:47 | division and remainder by cols recover (row, col) from the offset |
| `Rasterizer.OffsetOfIndex` | src/main.rs:28-47 | every index below rows * cols is the offset of a pixel of the grid (the offset map is onto) |
| `Rasterizer.OffsetInjective` | src/main.rs:47 | two pixels with the same offset are the same pixel (the offset map is one-to-one) |
| `Rasterizer.RasterImage` | src/main.rs:29-50 | the finished buffer has rows * cols bytes |
| `Rasterizer.RasterImageAt` | src/main.rs:29-50 | the finished buffer holds, at offset row * cols + col, the byte of pixel (row, col) |
| `Rasterizer.Render` | src/main.rs:22-53 | requires the buffer length to equal rows * cols; the whole buffer then becomes RasterImage of the inputs, and the offsets are written in the order 0, 1, ..., rows*cols - 1, each exactly once; the coordinate map is only called with a nonzero source width |

## Left out

- The PNG encoding of the buffer and the creation of the output file (`write_image`). This is
  I/O through a foreign image library. Note that it passes `bounds.0` as the image width, while
  `render` uses `bounds.1` as the row length; the two agree only on square grids.
- The command-line front end (`main`): argument parsing, printing the parsed arguments, and the
  hard-coded dimensions and corners. The parsed arguments are never used.
- IEEE-754 rounding, infinities and NaN. Numbers are exact reals, so `Affine` requires a
  nonzero source width instead of producing a non-finite value. `render` never calls it with a
  zero width, because its loops run only when both bounds are positive.
- `usize` wrap-around in `rows * cols` and `row * cols + col`. Integers are unbounded, so the
  model describes only grids whose `rows * cols` fits in `usize`; then every offset stays below
  the buffer length and cannot wrap. When the product overflows, a debug build panics at the
  multiplication, and a release build compares the buffer length against the wrapped product.
  For example, rows = cols = 2^32 gives 0, so an empty buffer passes the length check and the
  first write then panics on an out-of-bounds index. Neither case is modelled.
- The truncating `as u8` cast is modelled as `% 256`. The renderer only casts values below 255,
  so the cast never changes a value.
- Parallel or tiled rendering; the source is strictly sequential.
