/**
 The bitmap extractor: each pixel's 8-bit luma is thresholded into an
 "on" (shape interior) or "off" (exterior) state, and the states are laid
 out as a flat row-major occupancy bitmap.
 */
module Bitmap {
  import opened Geometry

  /** An 8-bit luma sample. */
  type Byte = b: int | 0 <= b < 256

  /** The fixed near-white cutoff: only a luma strictly above it is "on". */
  const ON_THRESHOLD: Byte := 250

  /** Whether a pixel with this luma belongs to the shape. */
  predicate IsOn(luma: Byte)
  {
    luma > ON_THRESHOLD
  }

  /** Exactly the five lumas 251..255 are "on"; 250 itself is "off". */
  lemma IsOnExactly(luma: Byte)
    ensures IsOn(luma) <==> 251 <= luma <= 255
    ensures !IsOn(250) && IsOn(251)
  {
  }

  /**
   A decoded source image reduced to its luma channel: `luma` holds one
   sample per pixel, enumerated row by row.
   */
  datatype Image = Image(width: nat, height: nat, luma: seq<Byte>)
  {
    predicate Valid()
    {
      |luma| == RowStart(width, height)
    }

    /** The luma of pixel (x, y). */
    function Luma(x: nat, y: nat): Byte
      requires Valid() && x < width && y < height
    {
      IndexInBounds(width, height, x, y);
      luma[Index(width, x, y)]
    }
  }

  /** An occupancy bitmap: one state per pixel, row-major. */
  datatype Grid = Grid(width: nat, height: nat, cells: seq<bool>)
  {
    predicate Valid()
    {
      |cells| == RowStart(width, height)
    }

    /** The state of pixel (x, y). */
    function At(x: nat, y: nat): bool
      requires Valid() && x < width && y < height
    {
      IndexInBounds(width, height, x, y);
      cells[Index(width, x, y)]
    }
  }

  /**
   The states of a sequence of luma samples, built as the source does: one
   state pushed per sample, in enumeration order.
   */
  function Threshold(luma: seq<Byte>): (states: seq<bool>)
    ensures |states| == |luma|
    ensures forall i :: 0 <= i < |luma| ==> (states[i] <==> luma[i] > ON_THRESHOLD)
  {
    if |luma| == 0 then []
    else Threshold(luma[..|luma| - 1]) + [IsOn(luma[|luma| - 1])]
  }

  /** The occupancy bitmap of an image. */
  function GenerateBitmap(img: Image): (g: Grid)
    requires img.Valid()
    ensures g.Valid() && g.width == img.width && g.height == img.height
  {
    Grid(img.width, img.height, Threshold(img.luma))
  }

  /** The bitmap holds exactly W×H states. */
  lemma BitmapSize(img: Image)
    requires img.Valid()
    ensures |GenerateBitmap(img).cells| == img.width * img.height
  {
    RowStartIsProduct(img.width, img.height);
  }

  /**
   The bitmap is in row-major correspondence with the image: the state of
   pixel (x, y) is the threshold of that same pixel's luma, so nothing is
   skipped or reordered.
   */
  lemma {:induction false} BitmapRowMajor(img: Image, x: nat, y: nat)
    requires img.Valid() && x < img.width && y < img.height
    ensures GenerateBitmap(img).At(x, y) <==> img.Luma(x, y) > ON_THRESHOLD
  {
    var i := Index(img.width, x, y);
    IndexInBounds(img.width, img.height, x, y);
    assert 0 <= i < |img.luma|;
    var g := GenerateBitmap(img);
    assert g.cells == Threshold(img.luma);
    assert g.cells[i] <==> img.luma[i] > ON_THRESHOLD;
    assert g.At(x, y) == g.cells[i];
    assert img.Luma(x, y) == img.luma[i];
  }
}
