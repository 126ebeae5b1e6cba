# sdfgen integer core, modelled in Dafny

sdfgen turns an image into a signed distance field. It thresholds every
pixel's luma into an "on"/"off" occupancy bitmap. Then, for every pixel, it
scans a window of radius `spread` clipped to the image, and keeps the least
squared distance to a pixel of the opposite state, starting from the
sentinel `spread*spread`. The square root, the −0.5 offset and the
normalisation to a byte happen afterwards in floating point.

This project models the integer part of that pipeline:

- `geometry.dfy` (module `Geometry`): the squared distance `SqDist`, the
  clipped window `WindowOf`, the row-major index `Index`, and the
  machine-integer bounds `FitsMachineInts` under which the generator's
  `u32`/`i32` arithmetic is exact. Squares and row offsets are defined by
  recursion (`Square`, `RowStart`) and tied to the products `n*n` and `y*W`
  by `SquareIsProduct` and `RowStartIsProduct`, which keeps nonlinear
  arithmetic out of the other proofs.
- `bitmap.dfy` (module `Bitmap`): the luma threshold `IsOn` (strictly above
  250), the luma image `Image`, the occupancy bitmap `Grid`, and
  `GenerateBitmap`.
- `distance_field.dfy` (module `DistanceField`): the functional
  specification. `ScanRow`/`ScanRows` are the nested loops written as folds.
  `IsCappedMin` characterises their result as "the least of the cap and the
  squared distances to the opposite pixels of a region". `WindowScan` is the
  per-pixel result. `CellAt` pairs that result with the pixel's own state,
  which decides the sign.
- `generator.dfy` (module `Generator`): the imperative nested-loop
  `NearestOpposite`, with the source's `u32` wrap-around written out
  (`WrapU32`), `FillField`/`GenerateRow`, which fill a row-major output
  buffer one cell at a time from a bitmap, and `GenerateSdf`, which builds
  the bitmap from the image first, as the source does.
- `properties.dfy` (module `FieldProperties`): consequences of the
  characterisation. These cover when the sentinel survives, when the result
  is zero, locality, monotonicity in the spread, and the 5×5 example.

The central fact is `DistanceField.WindowIsWholeImage`. The window
`[x-rad, x+rad) × [y-rad, y+rad)` is asymmetric: column `x+rad` and row
`y+rad` are never scanned. Even so, the capped minimum over the window
equals the capped minimum over the whole image. Every pixel outside the
window is at least `rad` away along one axis, so it cannot beat the
sentinel. Each output cell is therefore `min(rad², squared distance to the
nearest opposite pixel anywhere)`.

With `spread = 0` the window is empty, because `ex = min(x + 0, W) = x`
(`Geometry.ZeroRadiusWindowEmpty`), so every pixel keeps the sentinel 0.

## Model

| member | source | states |
|---|---|---|
| Geometry.SqDist | src/main.rs:18-22 | the squared distance is non-negative and is zero exactly when the two points coincide |
| Geometry.SqDistIsSumOfSquares | src/main.rs:18-22 | the squared distance is `(x2-x1)² + (y2-y1)²`, the source's `dx*dx + dy*dy` |
| Geometry.SqDistSymmetric | src/main.rs:18-22 | swapping the two points does not change the squared distance |
| Geometry.FarAxisIsFar | src/main.rs:18-22 | a point whose offset along either axis is at least `rad` has squared distance at least `rad*rad` |
| Geometry.SquareIsProduct | src/main.rs:43 | `Square(n)`, the sum of the first `n` odd numbers, is `n*n`; the sentinel `max_dist = rad * rad` is written `Square(rad)` in the contracts |
| Geometry.SquareMonotone | src/main.rs:42-43 | the sentinel grows with the spread: `a <= b` gives `Square(a) <= Square(b)` |
| Geometry.WrapU32 | src/main.rs:49-67 | the `u32` operations and the `as u32` cast keep a value in [0, 2^32): values already in range are unchanged, values one period above or below are shifted by 2^32 |
| Geometry.WindowOf | src/main.rs:51-62 | `bx <= x`, `by <= y`, `ex <= W`, `ey <= H`, `bx >= x - rad`, `ex <= x + rad`; a pixel is in the window exactly when it is in the image and in `[x-rad, x+rad) × [y-rad, y+rad)` |
| Geometry.ZeroRadiusWindowEmpty | src/main.rs:51-62 | with `rad = 0` the window contains no pixel |
| Geometry.RowStartIsProduct | src/main.rs:31 | `y` rows of `W` pixels hold `y*W` pixels, so the row-major index `RowStart(W, y) + x` is the source's `y*W + x` and a `W` by `H` buffer has `W*H` entries |
| Geometry.IndexIsRowMajor | src/main.rs:49 | `Index(W, x, y)` is the source's row-major index `y*W + x`, used at lines 49 and 65 |
| Geometry.IndexDeterminesPixel | src/main.rs:49 | two pixels with `x < W` and the same row-major index are the same pixel, so distinct pixels never share a cell |
| Geometry.IndexInBounds | src/main.rs:49 | the row-major index of an in-image pixel lies below the buffer size `W*H` |
| Geometry.NoWrapInWindow | src/main.rs:42-67 | when the image and spread fit the machine types, the indices read are `u32` values, the window ends `x + rad` do not wrap, and the squared distance of every window pixel fits a non-negative `i32` |
| Geometry.NearIsClose | src/main.rs:18-22 | a point within `rad` on both axes has squared distance at most `2*rad*rad` |
| Bitmap.IsOnExactly | src/main.rs:25-27 | `IsOn`, the model of `is_on`, holds for a luma exactly when it is 251..255; 250 is off and 251 is on |
| Bitmap.Threshold | src/main.rs:32-37 | one state per luma sample, in the same order; state `i` is on exactly when sample `i` exceeds 250 |
| Bitmap.GenerateBitmap | src/main.rs:29-38 | the bitmap has the image's width and height and exactly W×H entries |
| Bitmap.BitmapSize | src/main.rs:31-37 | the bitmap holds exactly W×H states |
| Bitmap.BitmapRowMajor | src/main.rs:30-37 | the bitmap state of pixel (x, y) is the threshold of that same pixel's luma, so nothing is skipped or reordered |
| DistanceField.Relax | src/main.rs:65-67 | one step of the inner loop never raises `dist`; it lowers it to at most the pixel's squared distance when the pixel is opposite, and otherwise leaves `dist` unchanged or sets it to that distance |
| DistanceField.ScanRow | src/main.rs:64-69 | the inner loop over a row segment never raises `dist` |
| DistanceField.ScanRows | src/main.rs:63-70 | the nested loops over a block of rows never raise `dist` |
| DistanceField.ScanRowIsCappedMin | src/main.rs:64-69 | the inner loop over a row segment ends at the least of its start value and the squared distances to the segment's opposite pixels |
| DistanceField.ScanRowsIsCappedMin | src/main.rs:63-70 | the nested loops over a block of rows end at the least of the start value and the squared distances to the block's opposite pixels |
| DistanceField.WindowScan | src/main.rs:43-70 | the per-pixel result is at most `rad*rad`, at most every opposite pixel's squared distance in the window, and equal to `rad*rad` or to one of those distances |
| DistanceField.CappedMinUnique | src/main.rs:50-70 | a capped minimum is unique, so any two computations of it agree |
| DistanceField.WindowIsWholeImage | src/main.rs:51-67 | the capped minimum over the clipped, asymmetric window is the capped minimum over the whole image (both directions) |
| DistanceField.CellAt | src/main.rs:49-75 | each pixel's squared distance is the least of `rad*rad` and the squared distances to all opposite pixels of the image; the distance is negated exactly when the pixel is off |
| Generator.ScanRowLoop | src/main.rs:64-69 | the inner loop over one row of the window, reading the bitmap through `u32` indices, ends with the fold `ScanRow` over that row |
| Generator.NearestOpposite | src/main.rs:49-75 | the nested loop, with `u32` index and window arithmetic, computes exactly `CellAt`: the running `dist` ends as the least of `rad*rad` and the opposite pixels' squared distances, and the flag is the pixel's own state |
| Generator.KeepWritten | src/main.rs:48-79 | writing one cell of the output buffer leaves every pixel stored at another index with its result |
| Generator.GenerateRow | src/main.rs:45-80 | after one row of the pass, every pixel of that row and of the earlier rows holds its own result, and the cells after the row are still blank |
| Generator.FillField | src/main.rs:45-82 | from a bitmap, the output buffer has W×H cells, and the cell at row-major index `y*W + x` holds the result for (x, y) |
| Generator.GenerateSdf | src/main.rs:40-82 | from an image, the bitmap is built first (line 47); the buffer has W×H cells, each holding its pixel's result, and a cell's distance is negated exactly when its pixel's luma is at most 250 |
| FieldProperties.SentinelIffNoCloserOpposite | src/main.rs:50-70 | the result stays at the sentinel exactly when no opposite pixel of the image is closer than `rad` |
| FieldProperties.NoOppositeKeepsSentinel | src/main.rs:50-70 | if the window holds no opposite pixel, including when `rad = 0`, the result is `rad*rad` |
| FieldProperties.UniformBitmapGivesSentinel | src/main.rs:43-70 | a bitmap that is entirely on or entirely off gives every pixel the sentinel |
| FieldProperties.ZeroOnlyWithoutRadius | src/main.rs:42-70 | the result is zero exactly when `rad = 0`, because the pixel itself never counts |
| FieldProperties.FoundOppositeIsPositive | src/main.rs:65-67 | whenever an opposite pixel lies in the window, the result is between 1 and that pixel's squared distance |
| FieldProperties.DependsOnlyOnWindow | src/main.rs:48-70 | two bitmaps of the same size that agree on the pixel and its window give the same result |
| FieldProperties.MonotoneInRadius | src/main.rs:42-70 | a larger spread never gives a smaller squared distance |
| FieldProperties.FoundDistanceIsExact | src/main.rs:42-70 | a result below the sentinel is the true nearest-opposite squared distance and does not change under a larger spread |
| FieldProperties.HoleCentre | src/main.rs:42-70 | on a 5×5 bitmap that is on except at its centre, with spread 2, the centre gets squared distance 1 |
| FieldProperties.HoleCorner | src/main.rs:42-70 | on the same bitmap and spread, the corner (0, 0), whose window misses the centre, keeps the sentinel 4 |

## Left out

- `main` (src/main.rs:85-109): argument parsing, the default spread 16, file loading and saving, and messages. These are process plumbing and I/O.
- The `image` crate calls (`pixels`, `to_luma`, `ImageBuffer::new`, `enumerate_pixels_mut`): these are foreign library code. The luma image is a `seq` of bytes in row-major order. The output buffer is a `seq<Cell>`, pre-filled with a blank cell and written in row-major order.
- The floating-point tail (src/main.rs:72-77): `sqrt`, the −0.5 offset, the normalisation `(d/spread)*128 + 127.5`, and the `as u8` conversion. Dafny has no faithful model of `f32` or of the saturating cast. Only the sign decision is kept, as `Cell.inside` / `Cell.Negated`.
- Generator.NearestOpposite: requires `FitsMachineInts`: the pixel count `W*H` is below 2^32, every window end `x + spread` is below 2^32, and every coordinate is below 2^31. Under that bound no `u32` product, index or window end wraps and no `as i32` cast changes a coordinate. `WrapU32` models the `u32` operations and the `i32`-to-`u32` cast of the distance, which matches two's-complement wrapping. The debug-build overflow panic is not modelled.
- Generator.GenerateSdf: requires the same `FitsMachineInts` bound, for the same reason; so do Generator.FillField and Generator.GenerateRow. At `W*H == 2^32` the source's `w * h` at line 31 overflows, which the bound excludes.
