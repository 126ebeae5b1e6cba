/**
 The integer part of the distance-field generator.  For every pixel the
 generator scans the clipped window around it, keeping the least squared
 distance to a pixel of the opposite state, starting from the sentinel
 `rad*rad`.  The result per pixel is that squared distance and the pixel's
 own state, which decides the sign of the final (floating-point) distance.
 */
module DistanceField {
  import opened Geometry
  import opened Bitmap

  /** One output pixel before the floating-point normalisation. */
  datatype Cell = Cell(sqDist: nat, inside: bool)
  {
    /** The distance is negated exactly for pixels outside the shape. */
    predicate Negated()
    {
      !inside
    }
  }

  predicate InImage(g: Grid, x: nat, y: nat)
  {
    g.Valid() && x < g.width && y < g.height
  }

  /** Pixel (sx, sy) has the state opposite to the centre (x, y). */
  predicate Opposite(g: Grid, x: nat, y: nat, sx: nat, sy: nat)
    requires InImage(g, x, y) && InImage(g, sx, sy)
  {
    g.At(sx, sy) != g.At(x, y)
  }

  /** A region of the image, given as a window that does not pass its edges. */
  predicate WindowInImage(g: Grid, win: Window)
  {
    win.endX <= g.width && win.endY <= g.height
  }

  /** The whole image as a window. */
  function WholeImage(g: Grid): (win: Window)
    ensures WindowInImage(g, win)
    ensures forall sx: nat, sy: nat :: win.Contains(sx, sy) <==> sx < g.width && sy < g.height
  {
    Window(0, 0, g.width, g.height)
  }

  /**
   `d` is the least of `cap` and the squared distances from (x, y) to the
   opposite-state pixels of `win`: it is at most `cap`, at most every such
   distance, and equal either to `cap` or to one of those distances.
   */
  ghost predicate IsCappedMin(g: Grid, x: nat, y: nat, win: Window, cap: nat, d: nat)
    requires InImage(g, x, y) && WindowInImage(g, win)
  {
    && d <= cap
    && (forall sx: nat, sy: nat :: win.Contains(sx, sy) && Opposite(g, x, y, sx, sy) ==> d <= SqDist(x, y, sx, sy))
    && (d == cap || exists sx: nat, sy: nat :: win.Contains(sx, sy) && Opposite(g, x, y, sx, sy) && d == SqDist(x, y, sx, sy))
  }

  /** One step of the inner loop: pixel (sx, sy) lowers `d` if it is opposite and closer. */
  function Relax(g: Grid, x: nat, y: nat, sx: nat, sy: nat, d: nat): (r: nat)
    requires InImage(g, x, y) && InImage(g, sx, sy)
    ensures r <= d
    ensures Opposite(g, x, y, sx, sy) ==> r <= SqDist(x, y, sx, sy)
    ensures r == d || (Opposite(g, x, y, sx, sy) && r == SqDist(x, y, sx, sy))
  {
    if Opposite(g, x, y, sx, sy) then Min(SqDist(x, y, sx, sy), d) else d
  }

  /** The inner loop over columns [sx, ex) of row sy, starting from `d`. */
  function ScanRow(g: Grid, x: nat, y: nat, sy: nat, sx: nat, ex: nat, d: nat): (r: nat)
    requires InImage(g, x, y) && sy < g.height && ex <= g.width
    ensures r <= d
    decreases ex - sx
  {
    if sx >= ex then d
    else ScanRow(g, x, y, sy, sx + 1, ex, Relax(g, x, y, sx, sy, d))
  }

  /** The outer loop over rows [sy, ey), each scanning columns [bx, ex), starting from `d`. */
  function ScanRows(g: Grid, x: nat, y: nat, sy: nat, ey: nat, bx: nat, ex: nat, d: nat): (r: nat)
    requires InImage(g, x, y) && ey <= g.height && ex <= g.width
    ensures r <= d
    decreases ey - sy
  {
    if sy >= ey then d
    else ScanRows(g, x, y, sy + 1, ey, bx, ex, ScanRow(g, x, y, sy, bx, ex, d))
  }

  /** Scanning a row segment yields the capped minimum over that segment. */
  lemma {:induction false} ScanRowIsCappedMin(g: Grid, x: nat, y: nat, sy: nat, sx: nat, ex: nat, d: nat)
    requires InImage(g, x, y) && sy < g.height && sx <= ex <= g.width
    ensures IsCappedMin(g, x, y, Window(sx, sy, ex, sy + 1), d, ScanRow(g, x, y, sy, sx, ex, d))
    decreases ex - sx
  {
    if sx < ex {
      ScanRowIsCappedMin(g, x, y, sy, sx + 1, ex, Relax(g, x, y, sx, sy, d));
    }
  }

  /** Scanning a block of rows yields the capped minimum over that block. */
  lemma {:induction false} ScanRowsIsCappedMin(g: Grid, x: nat, y: nat, sy: nat, ey: nat, bx: nat, ex: nat, d: nat)
    requires InImage(g, x, y) && sy <= ey <= g.height && bx <= ex <= g.width
    ensures IsCappedMin(g, x, y, Window(bx, sy, ex, ey), d, ScanRows(g, x, y, sy, ey, bx, ex, d))
    decreases ey - sy
  {
    if sy < ey {
      ScanRowIsCappedMin(g, x, y, sy, bx, ex, d);
      ScanRowsIsCappedMin(g, x, y, sy + 1, ey, bx, ex, ScanRow(g, x, y, sy, bx, ex, d));
    }
  }

  /**
   The squared distance the generator finds for (x, y): the scan of the
   clipped window starting from the sentinel `rad*rad`.
   */
  function WindowScan(g: Grid, x: nat, y: nat, rad: nat): (dist: nat)
    requires InImage(g, x, y)
    ensures IsCappedMin(g, x, y, WindowOf(g.width, g.height, x, y, rad), Square(rad), dist)
  {
    var win := WindowOf(g.width, g.height, x, y, rad);
    ScanRowsIsCappedMin(g, x, y, win.minY, win.endY, win.minX, win.endX, Square(rad));
    ScanRows(g, x, y, win.minY, win.endY, win.minX, win.endX, Square(rad))
  }

  /** The capped minimum of a region is unique. */
  lemma {:induction false} CappedMinUnique(g: Grid, x: nat, y: nat, win: Window, cap: nat, d1: nat, d2: nat)
    requires InImage(g, x, y) && WindowInImage(g, win)
    requires IsCappedMin(g, x, y, win, cap, d1) && IsCappedMin(g, x, y, win, cap, d2)
    ensures d1 == d2
  {
    if d1 != cap {
      var sx: nat, sy: nat :| win.Contains(sx, sy) && Opposite(g, x, y, sx, sy) && d1 == SqDist(x, y, sx, sy);
      assert d2 <= d1;
    }
    if d2 != cap {
      var sx: nat, sy: nat :| win.Contains(sx, sy) && Opposite(g, x, y, sx, sy) && d2 == SqDist(x, y, sx, sy);
      assert d1 <= d2;
    }
  }

  /**
   The clipped window loses nothing: with the sentinel `rad*rad` as cap,
   the capped minimum over the window is the capped minimum over the whole
   image.  A pixel outside [x-rad, x+rad) x [y-rad, y+rad) is at least
   `rad` away on one axis, so it cannot beat the sentinel; in particular
   the asymmetric upper bound (column `x+rad` is never scanned) makes no
   difference.
   */
  lemma {:induction false} WindowIsWholeImage(g: Grid, x: nat, y: nat, rad: nat, d: nat)
    requires InImage(g, x, y)
    ensures IsCappedMin(g, x, y, WindowOf(g.width, g.height, x, y, rad), Square(rad), d)
        <==> IsCappedMin(g, x, y, WholeImage(g), Square(rad), d)
  {
    var win := WindowOf(g.width, g.height, x, y, rad);
    var all := WholeImage(g);
    forall sx: nat, sy: nat | all.Contains(sx, sy) && !win.Contains(sx, sy)
      ensures SqDist(x, y, sx, sy) >= Square(rad)
    {
      FarAxisIsFar(x, y, sx, sy, rad);
      SquareIsProduct(rad);
    }
  }

  /**
   The result of the generator for pixel (x, y): its squared distance is
   the least of `rad*rad` and the squared distances to every opposite-state
   pixel anywhere in the image, and its flag is the pixel's own state.
   */
  function CellAt(g: Grid, rad: nat, x: nat, y: nat): (c: Cell)
    requires InImage(g, x, y)
    ensures IsCappedMin(g, x, y, WholeImage(g), Square(rad), c.sqDist)
    ensures c.Negated() <==> !g.At(x, y)
  {
    var dist := WindowScan(g, x, y, rad);
    WindowIsWholeImage(g, x, y, rad, dist);
    Cell(dist, g.At(x, y))
  }
}
