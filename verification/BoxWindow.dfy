/**
  From a bounding box to a pixel window.  Coordinates are reals: rounding of doubles and
  saturating casts are outside the model.
 */
module BoxWindow {
  import opened Prelude
  import opened TileGrid

  datatype Transform = Transform(originX: real, originY: real, pixelWidth: real, pixelHeight: real)

  datatype Box = Box(minX: real, minY: real, maxX: real, maxY: real)

  datatype BoxError = UnsupportedOrientation | NoIntersection

  function Ceil(x: real): int {
    -((-x).Floor)
  }

  function Clamp(x: int, lo: int, hi: int): int
    requires lo <= hi
  {
    if x < lo then lo else if x > hi then hi else x
  }

  /** `RasterPixelWindow::from_bbox`. */
  function FromBox(t: Transform, width: u32, height: u32, box: Box): Result<Window, BoxError> {
    if t.pixelWidth <= 0.0 || t.pixelHeight >= 0.0 then Failure(UnsupportedOrientation)
    else
      var minCol := ((box.minX - t.originX) / t.pixelWidth).Floor - 1;
      var maxCol := Ceil((box.maxX - t.originX) / t.pixelWidth) + 1;
      var minRow := ((box.maxY - t.originY) / t.pixelHeight).Floor - 1;
      var maxRow := Ceil((box.minY - t.originY) / t.pixelHeight) + 1;
      var colOff, rowOff := Clamp(minCol, 0, width), Clamp(minRow, 0, height);
      var colEnd, rowEnd := Clamp(maxCol, 0, width), Clamp(maxRow, 0, height);
      var w, h := Max(colEnd - colOff, 0), Max(rowEnd - rowOff, 0);
      if w == 0 || h == 0 then Failure(NoIntersection) else Success(Window(colOff, rowOff, w, h))
  }

  /** The closed cell of pixel `(row, col)`, grown by `margin` pixels on every side, meets the box. */
  predicate CellMeets(t: Transform, box: Box, row: int, col: int, margin: int) {
    && t.originX + (col - margin) as real * t.pixelWidth <= box.maxX
    && box.minX <= t.originX + (col + 1 + margin) as real * t.pixelWidth
    && t.originY + (row + 1 + margin) as real * t.pixelHeight <= box.maxY
    && box.minY <= t.originY + (row - margin) as real * t.pixelHeight
  }

  /** Multiplying through by a positive step. */
  lemma QuotientBound(x: real, s: real, k: real)
    requires s > 0.0
    ensures x / s <= k <==> x <= k * s
    ensures k <= x / s <==> k * s <= x
  {
    var q := x / s;
    assert q * s == x;
    if q < k { assert (k - q) * s > 0.0; }
    if k < q { assert (q - k) * s > 0.0; }
  }

  /** Along one axis with step `s`, cells `[k*s, (k+1)*s]` and the interval `[lo, hi]`. */
  lemma AxisPadding(lo: real, hi: real, s: real, k: int)
    requires s > 0.0
    ensures k as real * s <= hi && lo <= (k + 1) as real * s ==> (lo / s).Floor - 1 <= k < Ceil(hi / s) + 1
    ensures (lo / s).Floor - 1 <= k < Ceil(hi / s) + 1 ==> (k - 1) as real * s <= hi && lo <= (k + 2) as real * s
  {
    QuotientBound(hi, s, k as real);
    QuotientBound(hi, s, (k - 1) as real);
    QuotientBound(lo, s, (k + 1) as real);
    QuotientBound(lo, s, (k + 2) as real);
  }

  /** Dividing by the negative row step is dividing the mirrored offset by its magnitude. */
  lemma NegativeStep(x: real, s: real)
    requires s < 0.0
    ensures x / s == (-x) / (-s)
  {
    assert (x / s) * s == x;
    assert ((-x) / (-s)) * (-s) == -x;
    assert (x / s - (-x) / (-s)) * s == 0.0;
  }

  /** Between the box's bounds in pixels, rounded outwards and padded by one, on both axes. */
  predicate InPaddedBounds(t: Transform, box: Box, row: int, col: int)
    requires t.pixelWidth > 0.0 && t.pixelHeight < 0.0
  {
    && ((box.minX - t.originX) / t.pixelWidth).Floor - 1 <= col
    && col < Ceil((box.maxX - t.originX) / t.pixelWidth) + 1
    && ((box.maxY - t.originY) / t.pixelHeight).Floor - 1 <= row
    && row < Ceil((box.minY - t.originY) / t.pixelHeight) + 1
  }

  /** A cell that meets the box has padded indices, and one with padded indices is at most one cell off. */
  lemma PaddedPixels(t: Transform, box: Box, row: int, col: int)
    requires t.pixelWidth > 0.0 && t.pixelHeight < 0.0
    ensures CellMeets(t, box, row, col, 0) ==> InPaddedBounds(t, box, row, col)
    ensures InPaddedBounds(t, box, row, col) ==> CellMeets(t, box, row, col, 1)
  {
    var s := -t.pixelHeight;
    AxisPadding(box.minX - t.originX, box.maxX - t.originX, t.pixelWidth, col);
    AxisPadding(t.originY - box.maxY, t.originY - box.minY, s, row);
    NegativeStep(box.maxY - t.originY, t.pixelHeight);
    NegativeStep(box.minY - t.originY, t.pixelHeight);
    assert (row + 1) as real * t.pixelHeight == -((row + 1) as real * s);
    assert (row + 2) as real * t.pixelHeight == -((row + 2) as real * s);
    assert row as real * t.pixelHeight == -(row as real * s);
    assert (row - 1) as real * t.pixelHeight == -((row - 1) as real * s);
  }

  /** Only north-up rasters have windows. */
  lemma OnlyNorthUp(t: Transform, width: u32, height: u32, box: Box)
    ensures FromBox(t, width, height, box) == Failure(UnsupportedOrientation) <==>
              !(t.pixelWidth > 0.0 && t.pixelHeight < 0.0)
  {
  }

  /**
    The window lies inside the raster, holds every raster pixel whose cell meets the box and
    only pixels within one pixel of it; without a window no pixel meets the box.
   */
  lemma BoxIsCovered(t: Transform, g: Grid, box: Box)
    requires g.WellFormed() && t.pixelWidth > 0.0 && t.pixelHeight < 0.0
    ensures match FromBox(t, g.width, g.height, box)
            case Success(w) =>
              && w.Inside(g)
              && (forall row, col ::
                  0 <= row < g.height && 0 <= col < g.width && CellMeets(t, box, row, col, 0) ==> w.Contains(row, col))
              && (forall row, col :: w.Contains(row, col) ==> CellMeets(t, box, row, col, 1))
            case Failure(e) =>
              && e == NoIntersection
              && forall row, col :: 0 <= row < g.height && 0 <= col < g.width ==> !CellMeets(t, box, row, col, 0)
  {
    forall row, col
      ensures CellMeets(t, box, row, col, 0) ==> InPaddedBounds(t, box, row, col)
      ensures InPaddedBounds(t, box, row, col) ==> CellMeets(t, box, row, col, 1)
    {
      PaddedPixels(t, box, row, col);
    }
  }
}
