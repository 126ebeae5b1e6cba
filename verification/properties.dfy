/**
 Consequences of the capped-minimum characterisation of the window scan:
 when the sentinel survives, when the distance is zero, what a pixel's
 result depends on, and how it reacts to a larger spread.
 */
module FieldProperties {
  import opened Geometry
  import opened Bitmap
  import opened DistanceField

  /** The sentinel `rad*rad` survives exactly when no opposite pixel of the image is closer than `rad`. */
  lemma {:induction false} SentinelIffNoCloserOpposite(g: Grid, x: nat, y: nat, rad: nat)
    requires InImage(g, x, y)
    ensures WindowScan(g, x, y, rad) == Square(rad) <==>
      forall sx: nat, sy: nat :: sx < g.width && sy < g.height && Opposite(g, x, y, sx, sy) ==> SqDist(x, y, sx, sy) >= Square(rad)
  {
    var d := WindowScan(g, x, y, rad);
    WindowIsWholeImage(g, x, y, rad, d);
    var all := WholeImage(g);
    assert IsCappedMin(g, x, y, all, Square(rad), d);
    if d != Square(rad) {
      var sx: nat, sy: nat :| all.Contains(sx, sy) && Opposite(g, x, y, sx, sy) && d == SqDist(x, y, sx, sy);
      assert SqDist(x, y, sx, sy) < Square(rad);
    }
  }

  /** With no opposite pixel in the window the result stays at the sentinel. */
  lemma {:induction false} NoOppositeKeepsSentinel(g: Grid, x: nat, y: nat, rad: nat)
    requires InImage(g, x, y)
    requires forall sx: nat, sy: nat :: WindowOf(g.width, g.height, x, y, rad).Contains(sx, sy) ==> g.At(sx, sy) == g.At(x, y)
    ensures WindowScan(g, x, y, rad) == Square(rad)
  {
  }

  /** A bitmap that is uniformly on (or uniformly off) gives every pixel the sentinel. */
  lemma UniformBitmapGivesSentinel(g: Grid, rad: nat, x: nat, y: nat)
    requires InImage(g, x, y)
    requires forall i :: 0 <= i < |g.cells| ==> g.cells[i] == g.cells[0]
    ensures WindowScan(g, x, y, rad) == Square(rad)
  {
    forall sx: nat, sy: nat | WindowOf(g.width, g.height, x, y, rad).Contains(sx, sy)
      ensures g.At(sx, sy) == g.At(x, y)
    {
      IndexInBounds(g.width, g.height, sx, sy);
      IndexInBounds(g.width, g.height, x, y);
    }
    NoOppositeKeepsSentinel(g, x, y, rad);
  }

  /**
   The result is zero exactly when the radius is zero: a zero radius leaves
   the window empty and the sentinel zero, and otherwise the pixel itself
   never counts, so any opposite pixel found is at least 1 away.
   */
  lemma {:induction false} ZeroOnlyWithoutRadius(g: Grid, x: nat, y: nat, rad: nat)
    requires InImage(g, x, y)
    ensures WindowScan(g, x, y, rad) == 0 <==> rad == 0
  {
    var win := WindowOf(g.width, g.height, x, y, rad);
    var d := WindowScan(g, x, y, rad);
    if d != Square(rad) {
      var sx: nat, sy: nat :| win.Contains(sx, sy) && Opposite(g, x, y, sx, sy) && d == SqDist(x, y, sx, sy);
      assert sx != x || sy != y;
    }
    if rad != 0 {
      SquareMonotone(1, rad);
    }
  }

  /** Whenever an opposite pixel lies in the window, the result is at least 1. */
  lemma {:induction false} FoundOppositeIsPositive(g: Grid, x: nat, y: nat, rad: nat, sx: nat, sy: nat)
    requires InImage(g, x, y)
    requires WindowOf(g.width, g.height, x, y, rad).Contains(sx, sy) && Opposite(g, x, y, sx, sy)
    ensures 1 <= WindowScan(g, x, y, rad) <= SqDist(x, y, sx, sy)
  {
    ZeroOnlyWithoutRadius(g, x, y, rad);
  }

  /**
   The result for (x, y) depends only on the bitmap inside its window and
   on the pixel's own state: two bitmaps of the same size that agree there
   give the same result.
   */
  lemma {:induction false} DependsOnlyOnWindow(g1: Grid, g2: Grid, x: nat, y: nat, rad: nat)
    requires InImage(g1, x, y) && InImage(g2, x, y)
    requires g1.width == g2.width && g1.height == g2.height
    requires g1.At(x, y) == g2.At(x, y)
    requires forall sx: nat, sy: nat :: WindowOf(g1.width, g1.height, x, y, rad).Contains(sx, sy) ==> g1.At(sx, sy) == g2.At(sx, sy)
    ensures WindowScan(g1, x, y, rad) == WindowScan(g2, x, y, rad)
  {
    var win := WindowOf(g1.width, g1.height, x, y, rad);
    var d := WindowScan(g1, x, y, rad);
    assert forall sx: nat, sy: nat :: win.Contains(sx, sy) ==> (Opposite(g1, x, y, sx, sy) <==> Opposite(g2, x, y, sx, sy));
    if d != Square(rad) {
      var sx: nat, sy: nat :| win.Contains(sx, sy) && Opposite(g1, x, y, sx, sy) && d == SqDist(x, y, sx, sy);
      assert Opposite(g2, x, y, sx, sy);
    }
    assert IsCappedMin(g2, x, y, win, Square(rad), d);
    CappedMinUnique(g2, x, y, win, Square(rad), d, WindowScan(g2, x, y, rad));
  }

  /** A larger spread never gives a smaller result. */
  lemma {:induction false} MonotoneInRadius(g: Grid, x: nat, y: nat, rad1: nat, rad2: nat)
    requires InImage(g, x, y) && rad1 <= rad2
    ensures WindowScan(g, x, y, rad1) <= WindowScan(g, x, y, rad2)
  {
    var all := WholeImage(g);
    var d1 := WindowScan(g, x, y, rad1);
    var d2 := WindowScan(g, x, y, rad2);
    WindowIsWholeImage(g, x, y, rad1, d1);
    WindowIsWholeImage(g, x, y, rad2, d2);
    SquareMonotone(rad1, rad2);
    if d2 != Square(rad2) {
      var sx: nat, sy: nat :| all.Contains(sx, sy) && Opposite(g, x, y, sx, sy) && d2 == SqDist(x, y, sx, sy);
      assert d1 <= d2;
    }
  }

  /**
   A result below the sentinel is the true squared distance to the nearest
   opposite pixel: enlarging the spread does not change it.
   */
  lemma {:induction false} FoundDistanceIsExact(g: Grid, x: nat, y: nat, rad1: nat, rad2: nat)
    requires InImage(g, x, y) && rad1 <= rad2
    requires WindowScan(g, x, y, rad1) < Square(rad1)
    ensures WindowScan(g, x, y, rad2) == WindowScan(g, x, y, rad1)
  {
    var all := WholeImage(g);
    var d1 := WindowScan(g, x, y, rad1);
    WindowIsWholeImage(g, x, y, rad1, d1);
    WindowIsWholeImage(g, x, y, rad2, d1);
    WindowIsWholeImage(g, x, y, rad2, WindowScan(g, x, y, rad2));
    SquareMonotone(rad1, rad2);
    assert IsCappedMin(g, x, y, all, Square(rad2), d1);
    CappedMinUnique(g, x, y, all, Square(rad2), d1, WindowScan(g, x, y, rad2));
  }

  /** A 5 by 5 bitmap that is on everywhere except at its centre (2, 2). */
  predicate IsHoleBitmap(g: Grid)
  {
    && g.width == 5 && g.height == 5 && |g.cells| == 25
    && forall i :: 0 <= i < 25 ==> (g.cells[i] <==> i != 12)
  }

  /**
   With spread 2 the centre of such a bitmap finds its four direct
   neighbours at squared distance 1.
   */
  lemma HoleCentre(g: Grid)
    requires IsHoleBitmap(g)
    ensures WindowScan(g, 2, 2, 2) == 1
  {
    assert g.At(2, 2) == g.cells[12];
    assert g.At(1, 2) == g.cells[11];
    FoundOppositeIsPositive(g, 2, 2, 2, 1, 2);
  }

  /**
   With spread 2 the corner (0, 0) of such a bitmap, whose clipped window
   [0, 2) x [0, 2) misses the centre, keeps the sentinel 4.
   */
  lemma HoleCorner(g: Grid)
    requires IsHoleBitmap(g)
    ensures WindowScan(g, 0, 0, 2) == 4
  {
    var corner := WindowOf(5, 5, 0, 0, 2);
    assert corner == Window(0, 0, 2, 2);
    assert g.At(0, 0) == g.cells[0];
    forall sx: nat, sy: nat | corner.Contains(sx, sy)
      ensures g.At(sx, sy) == g.At(0, 0)
    {
      assert Index(5, sx, sy) < 12;
      assert g.At(sx, sy) == g.cells[Index(5, sx, sy)];
    }
    NoOppositeKeepsSentinel(g, 0, 0, 2);
  }
}
