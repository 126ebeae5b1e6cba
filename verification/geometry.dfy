/**
 Integer geometry of the distance-field generator: the squared Euclidean
 distance between two pixel centres, the clipped search window around a
 pixel, and the machine-integer bounds under which the generator's `u32`
 and `i32` arithmetic is exact.
 */
module Geometry {

  /** Exclusive upper bound of a `u32`. */
  const U32_LIMIT: int := 0x1_0000_0000
  /** Exclusive upper bound of a non-negative `i32`. */
  const I32_LIMIT: int := 0x8000_0000

  /**
   Reduction modulo 2^32: the value a `u32` operation, or an `i32` result
   cast with `as u32`, keeps.
   */
  function WrapU32(v: int): (r: nat)
    ensures 0 <= r < U32_LIMIT
    ensures 0 <= v < U32_LIMIT ==> r == v
    ensures U32_LIMIT <= v < 2 * U32_LIMIT ==> r == v - U32_LIMIT
    ensures -U32_LIMIT <= v < 0 ==> r == v + U32_LIMIT
  {
    v % U32_LIMIT
  }

  function Min(a: int, b: int): int
  {
    if a <= b then a else b
  }

  function Abs(n: int): nat
  {
    if n >= 0 then n else -n
  }

  /**
   `n*n`, accumulated as the sum of the first `n` odd numbers
   (`SquareIsProduct` proves the two equal).
   */
  function Square(n: nat): nat
  {
    if n == 0 then 0 else Square(n - 1) + 2 * n - 1
  }

  lemma {:induction false} SquareIsProduct(n: nat)
    ensures Square(n) == n * n
  {
    if n > 0 {
      SquareIsProduct(n - 1);
      assert (n - 1) * (n - 1) + 2 * n - 1 == n * n;
    }
  }

  lemma {:induction false} SquareMonotone(a: nat, b: nat)
    requires a <= b
    ensures Square(a) <= Square(b)
    decreases b
  {
    if a < b {
      SquareMonotone(a, b - 1);
    }
  }

  /** Squaring preserves order on naturals. */
  lemma ProductMonotone(a: nat, b: nat)
    requires a <= b
    ensures a * a <= b * b
  {
    SquareMonotone(a, b);
    SquareIsProduct(a);
    SquareIsProduct(b);
  }

  /** Squared Euclidean distance between (x1, y1) and (x2, y2). */
  function SqDist(x1: int, y1: int, x2: int, y2: int): (r: nat)
    ensures r == 0 <==> x1 == x2 && y1 == y2
  {
    Square(Abs(x2 - x1)) + Square(Abs(y2 - y1))
  }

  /** The distance is the source's `xdiff*xdiff + ydiff*ydiff`. */
  lemma SqDistIsSumOfSquares(x1: int, y1: int, x2: int, y2: int)
    ensures SqDist(x1, y1, x2, y2) == (x2 - x1) * (x2 - x1) + (y2 - y1) * (y2 - y1)
  {
    SquareIsProduct(Abs(x2 - x1));
    SquareIsProduct(Abs(y2 - y1));
  }

  /** The distance does not depend on which point comes first. */
  lemma SqDistSymmetric(x1: int, y1: int, x2: int, y2: int)
    ensures SqDist(x1, y1, x2, y2) == SqDist(x2, y2, x1, y1)
  {
  }

  /** A point at least `rad` away on one axis is at least `rad*rad` away. */
  lemma {:induction false} FarAxisIsFar(x1: int, y1: int, x2: int, y2: int, rad: nat)
    requires Abs(x2 - x1) >= rad || Abs(y2 - y1) >= rad
    ensures SqDist(x1, y1, x2, y2) >= rad * rad
  {
    SquareIsProduct(rad);
    if Abs(x2 - x1) >= rad {
      SquareMonotone(rad, Abs(x2 - x1));
    } else {
      SquareMonotone(rad, Abs(y2 - y1));
    }
  }

  /** A point within `rad` on both axes is at most `2*rad*rad` away. */
  lemma {:induction false} NearIsClose(x1: int, y1: int, x2: int, y2: int, rad: nat)
    requires Abs(x2 - x1) <= rad && Abs(y2 - y1) <= rad
    ensures SqDist(x1, y1, x2, y2) <= 2 * (rad * rad)
  {
    SquareIsProduct(rad);
    SquareMonotone(Abs(x2 - x1), rad);
    SquareMonotone(Abs(y2 - y1), rad);
  }

  /**
   The pixels scanned for the centre (x, y): the half-open rectangle
   [minX, endX) x [minY, endY).
   */
  datatype Window = Window(minX: nat, minY: nat, endX: nat, endY: nat)
  {
    predicate Contains(sx: int, sy: int)
    {
      minX <= sx < endX && minY <= sy < endY
    }
  }

  /**
   The window of radius `rad` around (x, y) in a `w` by `h` image: the lower
   bound is `x - rad` unless that would be negative, the upper bound is the
   exclusive `x + rad` unless that passes the image edge.  The result is the
   rectangle [x-rad, x+rad) x [y-rad, y+rad) intersected with the image.
   */
  function WindowOf(w: nat, h: nat, x: nat, y: nat, rad: nat): (win: Window)
    requires x < w && y < h
    ensures win.minX <= x && win.minY <= y
    ensures win.endX <= w && win.endY <= h
    ensures win.minX + rad >= x && win.minY + rad >= y
    ensures win.endX <= x + rad && win.endY <= y + rad
    ensures forall sx, sy :: win.Contains(sx, sy) <==>
      (0 <= sx < w && 0 <= sy < h && x - rad <= sx < x + rad && y - rad <= sy < y + rad)
  {
    var minX := if x > rad then x - rad else 0;
    var minY := if y > rad then y - rad else 0;
    Window(minX, minY, Min(x + rad, w), Min(y + rad, h))
  }

  /** With a zero radius the window is empty. */
  lemma ZeroRadiusWindowEmpty(w: nat, h: nat, x: nat, y: nat)
    requires x < w && y < h
    ensures forall sx, sy :: !WindowOf(w, h, x, y, 0).Contains(sx, sy)
  {
  }

  /**
   The offset of row `y` in a row-major buffer `w` pixels wide: the `y`
   whole rows before it.  `RowStart(w, h)` is the size of a `w` by `h` buffer.
   */
  function RowStart(w: nat, y: nat): nat
  {
    if y == 0 then 0 else RowStart(w, y - 1) + w
  }

  /** The row-major index of pixel (x, y) in a buffer `w` pixels wide. */
  function Index(w: nat, x: nat, y: nat): nat
  {
    RowStart(w, y) + x
  }

  /** `y` rows of `w` pixels hold `y * w` pixels. */
  lemma {:induction false} RowStartIsProduct(w: nat, y: nat)
    ensures RowStart(w, y) == y * w
  {
    if y > 0 {
      RowStartIsProduct(w, y - 1);
      assert (y - 1) * w + w == y * w;
    }
  }

  /** The row-major index is the usual `y * w + x`. */
  lemma IndexIsRowMajor(w: nat, x: nat, y: nat)
    ensures Index(w, x, y) == y * w + x
  {
    RowStartIsProduct(w, y);
  }

  /**
   Within a row of width `w` the index determines the pixel: two pixels of
   the same buffer never share a cell.
   */
  lemma {:induction false} IndexDeterminesPixel(w: nat, x1: nat, y1: nat, x2: nat, y2: nat)
    requires x1 < w && x2 < w
    requires Index(w, x1, y1) == Index(w, x2, y2)
    ensures x1 == x2 && y1 == y2
    decreases y1 + y2
  {
    if y1 > 0 && y2 > 0 {
      IndexDeterminesPixel(w, x1, y1 - 1, x2, y2 - 1);
    }
  }

  /** The index of an in-image pixel lies in [0, RowStart(w, h)). */
  lemma {:induction false} IndexInBounds(w: nat, h: nat, x: nat, y: nat)
    requires x < w && y < h
    ensures Index(w, x, y) < RowStart(w, h)
    decreases h
  {
    if y < h - 1 {
      IndexInBounds(w, h - 1, x, y);
    }
  }

  /**
   The image and radius are small enough that the generator's `u32` and
   `i32` arithmetic never wraps: the pixel count `w*h` (`RowStart(w, h)`)
   and hence every index `y*w + x` is below 2^32, every window end
   `x + rad` is below 2^32, and every coordinate is below 2^31, so its
   `as i32` cast keeps it.
   */
  predicate FitsMachineInts(w: nat, h: nat, rad: nat)
  {
    && RowStart(w, h) < U32_LIMIT
    && w + rad <= U32_LIMIT
    && h + rad <= U32_LIMIT
    && w <= I32_LIMIT
    && h <= I32_LIMIT
    && rad < 256
  }

  /**
   Under FitsMachineInts nothing in the search wraps: every index read is a
   `u32`, both window ends are `u32`, and every squared distance computed
   for a pixel of the window is a non-negative `i32` (so its cast to `u32`
   is exact too).
   */
  lemma {:induction false} NoWrapInWindow(w: nat, h: nat, x: nat, y: nat, rad: nat, sx: nat, sy: nat)
    requires FitsMachineInts(w, h, rad)
    requires x < w && y < h
    requires WindowOf(w, h, x, y, rad).Contains(sx, sy)
    ensures Index(w, x, y) < U32_LIMIT && Index(w, sx, sy) < U32_LIMIT
    ensures x + rad < U32_LIMIT && y + rad < U32_LIMIT
    ensures SqDist(x, y, sx, sy) < I32_LIMIT
  {
    var win := WindowOf(w, h, x, y, rad);
    assert sx < w && sy < h && x - rad <= sx < x + rad && y - rad <= sy < y + rad;
    IndexInBounds(w, h, x, y);
    IndexInBounds(w, h, sx, sy);
    NearIsClose(x, y, sx, sy, rad);
    ProductMonotone(rad, 255);
  }
}
