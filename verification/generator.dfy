/**
 The imperative generator: the nested window scan for one pixel, with the
 source's `u32` arithmetic written out, and the row-major pass that fills
 the output buffer one cell at a time.
 */
module Generator {
  import opened Geometry
  import opened Bitmap
  import opened DistanceField

  /**
   The inner loop of the search for (x, y): columns [beginX, endX) of row
   sy, lowering `dist` to the squared distance of every closer pixel whose
   state differs from `current`.
   */
  method ScanRowLoop(g: Grid, rad: nat, x: nat, y: nat, current: bool, sy: nat, beginX: nat, endX: nat, dist0: nat)
    returns (dist: nat)
    requires InImage(g, x, y) && FitsMachineInts(g.width, g.height, rad) && current == g.At(x, y)
    requires beginX == WindowOf(g.width, g.height, x, y, rad).minX && endX == WindowOf(g.width, g.height, x, y, rad).endX
    requires WindowOf(g.width, g.height, x, y, rad).minY <= sy < WindowOf(g.width, g.height, x, y, rad).endY
    ensures dist == ScanRow(g, x, y, sy, beginX, endX, dist0)
  {
    var w := g.width;
    ghost var win := WindowOf(w, g.height, x, y, rad);
    dist := dist0;
    var sx := beginX;
    while sx < endX
      invariant beginX <= sx <= endX
      invariant ScanRow(g, x, y, sy, sx, endX, dist) == ScanRow(g, x, y, sy, beginX, endX, dist0)
    {
      assert win.Contains(sx, sy);
      NoWrapInWindow(w, g.height, x, y, rad, sx, sy);
      IndexInBounds(w, g.height, sx, sy);
      RowStartIsProduct(w, sy);
      ghost var before := dist;
      var onState := g.cells[WrapU32(sy * w + sx)];
      assert onState == g.At(sx, sy);
      if current != onState {
        dist := Min(WrapU32(SqDist(x, y, sx, sy)), dist);
      }
      assert dist == Relax(g, x, y, sx, sy, before);
      sx := sx + 1;
    }
  }

  /**
   The per-pixel body of the generator for (x, y): read the pixel's state,
   clip the window, and keep the least squared distance to an opposite
   pixel, starting from `rad*rad`.
   */
  method NearestOpposite(g: Grid, rad: nat, x: nat, y: nat) returns (c: Cell)
    requires InImage(g, x, y) && FitsMachineInts(g.width, g.height, rad)
    ensures c == CellAt(g, rad, x, y)
  {
    var w := g.width;
    IndexInBounds(w, g.height, x, y);
    RowStartIsProduct(w, y);
    RowStartIsProduct(w, g.height);
    var current := g.cells[WrapU32(y * w + x)];
    assert current == g.At(x, y);
    SquareIsProduct(rad);
    var dist: nat := rad * rad;
    var beginX := 0;
    if x > rad {
      beginX := x - rad;
    }
    var beginY := 0;
    if y > rad {
      beginY := y - rad;
    }
    var endX := Min(WrapU32(x + rad), w);
    var endY := Min(WrapU32(y + rad), g.height);
    ghost var win := WindowOf(w, g.height, x, y, rad);
    assert win == Window(beginX, beginY, endX, endY);

    var sy := beginY;
    while sy < endY
      invariant beginY <= sy <= endY
      invariant ScanRows(g, x, y, sy, endY, beginX, endX, dist) == WindowScan(g, x, y, rad)
    {
      dist := ScanRowLoop(g, rad, x, y, current, sy, beginX, endX, dist);
      sy := sy + 1;
    }
    c := Cell(dist, current);
  }

  /** The initial content of the output buffer. */
  const BLANK: Cell := Cell(0, false)

  /** Pixel (x, y) of the flat row-major buffer `out` holds the generator's result. */
  predicate Written(g: Grid, rad: nat, out: seq<Cell>, x: nat, y: nat)
    requires InImage(g, x, y)
  {
    Index(g.width, x, y) < |out| && out[Index(g.width, x, y)] == CellAt(g, rad, x, y)
  }

  /** Writing cell `i` keeps the result of any pixel stored elsewhere. */
  lemma KeepWritten(g: Grid, rad: nat, out: seq<Cell>, i: nat, c: Cell, x: nat, y: nat)
    requires InImage(g, x, y) && i < |out|
    requires Written(g, rad, out, x, y) && Index(g.width, x, y) != i
    ensures Written(g, rad, out[i := c], x, y)
  {
  }

  /**
   One row of the output pass: every pixel of row `y`, left to right, gets
   its result written at the next index `i`; earlier rows keep theirs and
   later cells stay blank.
   */
  method GenerateRow(g: Grid, rad: nat, y: nat, out0: seq<Cell>, i0: nat) returns (out: seq<Cell>, i: nat)
    requires g.Valid() && FitsMachineInts(g.width, g.height, rad) && y < g.height
    requires |out0| == RowStart(g.width, g.height) && i0 == RowStart(g.width, y)
    requires forall x': nat, y': nat :: x' < g.width && y' < y ==> Written(g, rad, out0, x', y')
    requires forall j :: i0 <= j < |out0| ==> out0[j] == BLANK
    ensures |out| == |out0| && i == RowStart(g.width, y + 1)
    ensures forall x': nat, y': nat :: x' < g.width && y' <= y ==> Written(g, rad, out, x', y')
    ensures forall j :: i <= j < |out| ==> out[j] == BLANK
  {
    var w := g.width;
    out, i := out0, i0;
    var x := 0;
    while x < w
      invariant x <= w && |out| == |out0| && i == RowStart(w, y) + x
      invariant forall x': nat, y': nat :: x' < w && y' < y ==> Written(g, rad, out, x', y')
      invariant forall x': nat :: x' < x ==> Written(g, rad, out, x', y)
      invariant forall j :: i <= j < |out| ==> out[j] == BLANK
    {
      var c := NearestOpposite(g, rad, x, y);
      IndexInBounds(w, g.height, x, y);
      ghost var prev := out;
      out := out[i := c];
      forall x': nat, y': nat | x' < w && y' < y
        ensures Written(g, rad, out, x', y')
      {
        IndexInBounds(w, y, x', y');
        KeepWritten(g, rad, prev, i, c, x', y');
      }
      forall x': nat | x' <= x
        ensures Written(g, rad, out, x', y)
      {
        if x' < x {
          KeepWritten(g, rad, prev, i, c, x', y);
        }
      }
      x := x + 1;
      i := i + 1;
    }
  }

  /**
   The output pass over a whole bitmap: a `W` by `H` buffer, allocated
   once, in which every cell is written exactly once, in row-major order,
   with the result for its own pixel.
   */
  method FillField(g: Grid, spread: Byte) returns (out: seq<Cell>)
    requires g.Valid() && FitsMachineInts(g.width, g.height, spread)
    ensures |out| == g.width * g.height
    ensures forall x: nat, y: nat :: x < g.width && y < g.height ==> Written(g, spread, out, x, y)
  {
    var rad: nat := spread;
    var w := g.width;
    var h := g.height;
    RowStartIsProduct(w, h);
    out := seq(w * h, _ => BLANK);
    var i := 0;
    var y := 0;
    while y < h
      invariant y <= h && |out| == RowStart(w, h) && i == RowStart(w, y)
      invariant forall x': nat, y': nat :: x' < w && y' < y ==> Written(g, rad, out, x', y')
      invariant forall j :: i <= j < |out| ==> out[j] == BLANK
    {
      out, i := GenerateRow(g, rad, y, out, i);
      y := y + 1;
    }
  }

  /**
   The generator over an image: threshold it into a bitmap, then fill the
   field from that bitmap.  Each cell holds its pixel's result, and its
   sign follows the pixel's own luma.
   */
  method GenerateSdf(img: Image, spread: Byte) returns (out: seq<Cell>)
    requires img.Valid() && FitsMachineInts(img.width, img.height, spread)
    ensures |out| == img.width * img.height
    ensures forall x: nat, y: nat :: x < img.width && y < img.height ==> Written(GenerateBitmap(img), spread, out, x, y)
    ensures forall x: nat, y: nat :: x < img.width && y < img.height ==>
      Index(img.width, x, y) < |out| && (out[Index(img.width, x, y)].Negated() <==> img.Luma(x, y) <= ON_THRESHOLD)
  {
    var g := GenerateBitmap(img);
    out := FillField(g, spread);
    forall x: nat, y: nat | x < img.width && y < img.height
      ensures Written(g, spread, out, x, y)
      ensures out[Index(img.width, x, y)].Negated() <==> img.Luma(x, y) <= ON_THRESHOLD
    {
      BitmapRowMajor(img, x, y);
    }
  }
}
