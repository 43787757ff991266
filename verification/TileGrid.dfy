/**
  The tiled raster grid: which tiles a pixel window covers, in which order they are
  planned, and which rectangle of each tile lands in the window.
 */
module TileGrid {
  import opened Prelude

  const MAX_PLANNED_TILE_COUNT: int := 65_536

  datatype Grid = Grid(width: u32, height: u32, tileWidth: u32, tileHeight: u32) {
    predicate WellFormed() {
      width > 0 && height > 0 && tileWidth > 0 && tileHeight > 0
    }

    function TilesAcross(): (n: u32)
      requires WellFormed()
      ensures 0 < n && (n - 1) * tileWidth < width <= n * tileWidth
    {
      DivCeilBounds(width, tileWidth);
      DivCeil(width, tileWidth)
    }

    function TilesDown(): (n: u32)
      requires WellFormed()
      ensures 0 < n && (n - 1) * tileHeight < height <= n * tileHeight
    {
      DivCeilBounds(height, tileHeight);
      DivCeil(height, tileHeight)
    }

    /** The flat index of the tile that stores a pixel (TIFF 6.0, section 15). */
    function TileOf(row: nat, col: nat): nat
      requires WellFormed()
    {
      QuotientFits(row, tileHeight);
      QuotientFits(col, tileWidth);
      MulMono(0, row / tileHeight, TilesAcross());
      (row / tileHeight) * TilesAcross() + col / tileWidth
    }
  }

  /** Pixel window, half-open in both dimensions. */
  datatype Window = Window(colOff: u32, rowOff: u32, width: u32, height: u32) {
    predicate NonEmpty() {
      width > 0 && height > 0
    }

    predicate Contains(row: int, col: int) {
      rowOff <= row < rowOff + height && colOff <= col < colOff + width
    }

    predicate Inside(g: Grid) {
      NonEmpty() && colOff + width <= g.width && rowOff + height <= g.height
    }
  }

  // ---- Tile plan ----------------------------------------------------------------------

  datatype PlanError = ColumnOverflow | RowOverflow | TooManyTiles | IndexOverflow

  /** The rectangle of tiles between the window's corner pixels. */
  datatype TileSpan = TileSpan(firstCol: nat, lastCol: nat, firstRow: nat, lastRow: nat) {
    predicate Ordered() {
      firstCol <= lastCol && firstRow <= lastRow
    }

    function Cols(): int {
      lastCol - firstCol + 1
    }

    function Rows(): int {
      lastRow - firstRow + 1
    }

    predicate Has(tileCol: int, tileRow: int) {
      firstCol <= tileCol <= lastCol && firstRow <= tileRow <= lastRow
    }
  }

  function SpanOf(g: Grid, w: Window): (s: TileSpan)
    requires g.WellFormed() && w.NonEmpty()
    ensures s.Ordered()
  {
    QuotientFits(w.colOff, g.tileWidth);
    QuotientFits(w.rowOff, g.tileHeight);
    DivMono(w.colOff, w.colOff + w.width - 1, g.tileWidth);
    DivMono(w.rowOff, w.rowOff + w.height - 1, g.tileHeight);
    TileSpan(w.colOff / g.tileWidth, (w.colOff + w.width - 1) / g.tileWidth,
             w.rowOff / g.tileHeight, (w.rowOff + w.height - 1) / g.tileHeight)
  }

  /** The `k`-th planned tile, in row-major order over the span. */
  function PlannedIndex(g: Grid, s: TileSpan, k: nat): nat
    requires g.WellFormed() && s.Ordered()
  {
    QuotientFits(k, s.Cols());
    MulMono(0, s.firstRow + k / s.Cols(), g.TilesAcross());
    (s.firstRow + k / s.Cols()) * g.TilesAcross() + s.firstCol + k % s.Cols()
  }

  function PlannedSeq(g: Grid, s: TileSpan, n: nat): seq<nat>
    requires g.WellFormed() && s.Ordered()
  {
    seq(n, k requires 0 <= k < n => PlannedIndex(g, s, k))
  }

  /** What planning returns for every window: the row-major plan or the first limit it meets. */
  ghost predicate IsPlan(g: Grid, w: Window, r: Result<seq<u32>, PlanError>)
    requires g.WellFormed() && w.NonEmpty()
  {
    var s := SpanOf(g, w);
    MulMono(0, s.Rows(), s.Cols());
    if w.colOff + w.width > U32_MAX then r == Failure(ColumnOverflow)
    else if w.rowOff + w.height > U32_MAX then r == Failure(RowOverflow)
    else if s.Cols() * s.Rows() > MAX_PLANNED_TILE_COUNT then r == Failure(TooManyTiles)
    else if s.lastRow * g.TilesAcross() + s.lastCol > U32_MAX then r == Failure(IndexOverflow)
    else r.Success? && r.value == PlannedSeq(g, s, s.Rows() * s.Cols())
  }

  method ForWindow(g: Grid, w: Window) returns (r: Result<seq<u32>, PlanError>)
    requires g.WellFormed() && w.NonEmpty()
    ensures IsPlan(g, w, r)
  {
    ghost var s := SpanOf(g, w);
    var firstTileCol: u32 := w.colOff / g.tileWidth;
    if w.colOff + w.width > U32_MAX {
      return Failure(ColumnOverflow);
    }
    var lastCol: u32 := w.colOff + w.width - 1;
    QuotientFits(lastCol, g.tileWidth);
    var lastTileCol: u32 := lastCol / g.tileWidth;
    var firstTileRow: u32 := w.rowOff / g.tileHeight;
    if w.rowOff + w.height > U32_MAX {
      return Failure(RowOverflow);
    }
    var lastRow: u32 := w.rowOff + w.height - 1;
    QuotientFits(lastRow, g.tileHeight);
    var lastTileRow: u32 := lastRow / g.tileHeight;
    var tilesAcross := g.TilesAcross();
    var tileCols: u32 := lastTileCol - firstTileCol + 1;
    var tileRows: u32 := lastTileRow - firstTileRow + 1;
    ProductFits(tileCols, tileRows);
    var count: u64 := tileCols * tileRows;
    if count > MAX_PLANNED_TILE_COUNT {
      return Failure(TooManyTiles);
    }
    var indices: seq<u32> := [];
    assert s == TileSpan(firstTileCol, lastTileCol, firstTileRow, lastTileRow);
    assert InPlanOrder(s, firstTileCol, firstTileRow, 0);
    for tileRow := firstTileRow to lastTileRow + 1
      invariant InPlanOrder(s, firstTileCol, tileRow, |indices|)
      invariant indices == PlannedSeq(g, s, |indices|)
      invariant tileRow > firstTileRow ==> (tileRow - 1) * tilesAcross + lastTileCol <= U32_MAX
    {
      for tileCol := firstTileCol to lastTileCol + 1
        invariant InPlanOrder(s, tileCol, tileRow, |indices|)
        invariant indices == PlannedSeq(g, s, |indices|)
        invariant tileCol > firstTileCol ==> tileRow * tilesAcross + tileCol - 1 <= U32_MAX
      {
        PlanOrderStep(g, s, tileCol, tileRow, |indices|);
        var base := tileRow * tilesAcross;
        if base > U32_MAX || base + tileCol > U32_MAX {
          return Failure(IndexOverflow);
        }
        var index: u32 := base + tileCol;
        indices := indices + [index];
      }
      PlanOrderNextRow(s, tileRow, |indices|);
    }
    PlanOrderEnd(s, |indices|);
    return Success(indices);
  }

  /** After `n` pushes the plan has reached tile `(tileCol, tileRow)`. */
  ghost predicate InPlanOrder(s: TileSpan, tileCol: int, tileRow: int, n: int)
    requires s.Ordered()
  {
    n == (tileRow - s.firstRow) * s.Cols() + tileCol - s.firstCol
  }

  lemma PlanOrderStep(g: Grid, s: TileSpan, tileCol: nat, tileRow: nat, n: nat)
    requires g.WellFormed() && s.Ordered() && s.Has(tileCol, tileRow)
    requires InPlanOrder(s, tileCol, tileRow, n)
    ensures InPlanOrder(s, tileCol + 1, tileRow, n + 1)
    ensures PlannedSeq(g, s, n + 1) == PlannedSeq(g, s, n) + [tileRow * g.TilesAcross() + tileCol]
    ensures 0 <= tileRow * g.TilesAcross()
    ensures tileRow * g.TilesAcross() + tileCol <= s.lastRow * g.TilesAcross() + s.lastCol
  {
    DivModUnique(n, tileRow - s.firstRow, tileCol - s.firstCol, s.Cols());
    MulMono(0, tileRow, g.TilesAcross());
    MulMono(tileRow, s.lastRow, g.TilesAcross());
  }

  lemma PlanOrderNextRow(s: TileSpan, tileRow: int, n: int)
    requires s.Ordered() && InPlanOrder(s, s.lastCol + 1, tileRow, n)
    ensures InPlanOrder(s, s.firstCol, tileRow + 1, n)
  {
    assert (tileRow + 1 - s.firstRow) * s.Cols() == (tileRow - s.firstRow) * s.Cols() + s.Cols();
  }

  lemma PlanOrderEnd(s: TileSpan, n: int)
    requires s.Ordered() && InPlanOrder(s, s.firstCol, s.lastRow + 1, n)
    ensures n == s.Rows() * s.Cols()
  {
  }

  // ---- The plan is exact --------------------------------------------------------------

  /** A tile meets the window when it stores one of the window's pixels. */
  ghost predicate Meets(g: Grid, w: Window, index: int)
    requires g.WellFormed()
  {
    exists row: nat, col: nat :: w.Contains(row, col) && g.TileOf(row, col) == index
  }

  /** Inside the raster the span stays inside the tile grid. */
  lemma SpanInGrid(g: Grid, w: Window)
    requires g.WellFormed() && w.Inside(g)
    ensures SpanOf(g, w).lastCol < g.TilesAcross() && SpanOf(g, w).lastRow < g.TilesDown()
  {
    QuotientWindow(w.colOff + w.width - 1, SpanOf(g, w).lastCol, g.tileWidth);
    QuotientWindow(w.rowOff + w.height - 1, SpanOf(g, w).lastRow, g.tileHeight);
    if SpanOf(g, w).lastCol >= g.TilesAcross() {
      MulMono(g.TilesAcross(), SpanOf(g, w).lastCol, g.tileWidth);
    }
    if SpanOf(g, w).lastRow >= g.TilesDown() {
      MulMono(g.TilesDown(), SpanOf(g, w).lastRow, g.tileHeight);
    }
  }

  /** A planned index decomposes back into the tile column and row it was made of. */
  lemma PlannedColRow(g: Grid, w: Window, k: nat)
    requires g.WellFormed() && w.Inside(g)
    requires k < SpanOf(g, w).Rows() * SpanOf(g, w).Cols()
    ensures var s := SpanOf(g, w);
            var index := PlannedIndex(g, s, k);
            && index % g.TilesAcross() == s.firstCol + k % s.Cols()
            && index / g.TilesAcross() == s.firstRow + k / s.Cols()
            && s.Has(index % g.TilesAcross(), index / g.TilesAcross())
            && index < g.TilesAcross() * g.TilesDown()
  {
    var s := SpanOf(g, w);
    SpanInGrid(g, w);
    CellOf(k, s.Cols(), s.Rows());
    DivModUnique(PlannedIndex(g, s, k), s.firstRow + k / s.Cols(), s.firstCol + k % s.Cols(), g.TilesAcross());
    CellInBounds(s.firstRow + k / s.Cols(), s.firstCol + k % s.Cols(), g.TilesAcross(), g.TilesDown());
  }

  lemma PlanIncreases(g: Grid, w: Window, j: nat, k: nat)
    requires g.WellFormed() && w.Inside(g)
    requires j < k < SpanOf(g, w).Rows() * SpanOf(g, w).Cols()
    ensures PlannedIndex(g, SpanOf(g, w), j) < PlannedIndex(g, SpanOf(g, w), k)
  {
    var s := SpanOf(g, w);
    SpanInGrid(g, w);
    CellOf(j, s.Cols(), s.Rows());
    CellOf(k, s.Cols(), s.Rows());
    LaterPosition(j, k, s.Cols());
    RowMajorLess(s.firstRow + j / s.Cols(), s.firstCol + j % s.Cols(),
                 s.firstRow + k / s.Cols(), s.firstCol + k % s.Cols(), g.TilesAcross());
  }

  /** The first pixel of the window that tile `(tileCol, tileRow)` stores. */
  lemma TileHasWindowPixel(g: Grid, w: Window, tileCol: nat, tileRow: nat)
    requires g.WellFormed() && w.NonEmpty() && SpanOf(g, w).Has(tileCol, tileRow)
    ensures var row, col := Max(w.rowOff, tileRow * g.tileHeight), Max(w.colOff, tileCol * g.tileWidth);
            && w.Contains(row, col)
            && row / g.tileHeight == tileRow && col / g.tileWidth == tileCol
  {
    AxisPixel(w.colOff, w.width, g.tileWidth, tileCol);
    AxisPixel(w.rowOff, w.height, g.tileHeight, tileRow);
  }

  lemma AxisPixel(off: nat, len: nat, size: nat, tile: nat)
    requires len > 0 && size > 0 && off / size <= tile <= (off + len - 1) / size
    ensures off <= Max(off, tile * size) < off + len
    ensures Max(off, tile * size) / size == tile
  {
    QuotientWindow(off, off / size, size);
    QuotientWindow(off + len - 1, (off + len - 1) / size, size);
    MulMono(off / size + 1, tile + 1, size);
    MulMono(tile, (off + len - 1) / size, size);
    QuotientWindow(Max(off, tile * size), tile, size);
  }

  /** The tile of a window pixel decomposes into the pixel's tile column and row, inside the span. */
  lemma PixelTile(g: Grid, w: Window, row: nat, col: nat)
    requires g.WellFormed() && w.Inside(g) && w.Contains(row, col)
    ensures SpanOf(g, w).Has(col / g.tileWidth, row / g.tileHeight)
    ensures g.TileOf(row, col) % g.TilesAcross() == col / g.tileWidth
    ensures g.TileOf(row, col) / g.TilesAcross() == row / g.tileHeight
  {
    SpanInGrid(g, w);
    DivMono(w.colOff, col, g.tileWidth);
    DivMono(col, w.colOff + w.width - 1, g.tileWidth);
    DivMono(w.rowOff, row, g.tileHeight);
    DivMono(row, w.rowOff + w.height - 1, g.tileHeight);
    DivModUnique(g.TileOf(row, col), row / g.tileHeight, col / g.tileWidth, g.TilesAcross());
  }

  lemma MeetsIffInSpan(g: Grid, w: Window, index: nat)
    requires g.WellFormed() && w.Inside(g)
    ensures Meets(g, w, index) <==> SpanOf(g, w).Has(index % g.TilesAcross(), index / g.TilesAcross())
  {
    forall row: nat, col: nat | w.Contains(row, col) && g.TileOf(row, col) == index
      ensures SpanOf(g, w).Has(index % g.TilesAcross(), index / g.TilesAcross())
    {
      PixelTile(g, w, row, col);
    }
    var tileCol, tileRow := index % g.TilesAcross(), index / g.TilesAcross();
    if SpanOf(g, w).Has(tileCol, tileRow) {
      TileHasWindowPixel(g, w, tileCol, tileRow);
      var row, col := Max(w.rowOff, tileRow * g.tileHeight), Max(w.colOff, tileCol * g.tileWidth);
      assert g.TileOf(row, col) == index;
    }
  }

  /**
    The plan of a window inside the raster lists exactly the tiles that store one of its
    pixels, in strictly increasing order, all of them existing tiles of the grid.
   */
  lemma PlanIsExact(g: Grid, w: Window, plan: seq<u32>)
    requires g.WellFormed() && w.Inside(g) && IsPlan(g, w, Success(plan))
    ensures forall j, k :: 0 <= j < k < |plan| ==> plan[j] < plan[k]
    ensures forall index: nat :: index in plan <==> Meets(g, w, index)
    ensures forall k :: 0 <= k < |plan| ==> plan[k] < g.TilesAcross() * g.TilesDown()
  {
    var s := SpanOf(g, w);
    forall j, k | 0 <= j < k < |plan| ensures plan[j] < plan[k] {
      PlanIncreases(g, w, j, k);
    }
    forall k | 0 <= k < |plan|
      ensures plan[k] < g.TilesAcross() * g.TilesDown() && Meets(g, w, plan[k])
    {
      PlannedColRow(g, w, k);
      MeetsIffInSpan(g, w, plan[k]);
    }
    forall index: nat | Meets(g, w, index) ensures index in plan {
      PlanListsTile(g, w, plan, index);
    }
  }

  /** Where the plan lists a tile of the span. */
  lemma PlanPosition(g: Grid, s: TileSpan, tileCol: nat, tileRow: nat) returns (k: nat)
    requires g.WellFormed() && s.Ordered() && s.Has(tileCol, tileRow)
    ensures k < s.Rows() * s.Cols()
    ensures PlannedIndex(g, s, k) == tileRow * g.TilesAcross() + tileCol
  {
    var c, r := tileCol - s.firstCol, tileRow - s.firstRow;
    CellInBounds(r, c, s.Cols(), s.Rows());
    k := r * s.Cols() + c;
    DivModUnique(k, r, c, s.Cols());
  }

  lemma PlanListsTile(g: Grid, w: Window, plan: seq<u32>, index: nat)
    requires g.WellFormed() && w.Inside(g) && IsPlan(g, w, Success(plan)) && Meets(g, w, index)
    ensures index in plan
  {
    MeetsIffInSpan(g, w, index);
    QuotientFits(index, g.TilesAcross());
    var k := PlanPosition(g, SpanOf(g, w), index % g.TilesAcross(), index / g.TilesAcross());
    PlannedAt(g, w, plan, k);
    QuotientAndRest(index, g.TilesAcross());
  }

  lemma PlannedAt(g: Grid, w: Window, plan: seq<u32>, k: nat)
    requires g.WellFormed() && w.NonEmpty() && IsPlan(g, w, Success(plan))
    requires k < SpanOf(g, w).Rows() * SpanOf(g, w).Cols()
    ensures k < |plan| && plan[k] == PlannedIndex(g, SpanOf(g, w), k)
  {
  }

  // ---- Crossed axes -------------------------------------------------------------------

  datatype CrossedTileAxes = Neither | X | Y | XAndY

  function CrossedAxes(g: Grid, covered: seq<u32>): CrossedTileAxes
    requires g.WellFormed()
  {
    var columns := set index | index in covered :: index % g.TilesAcross();
    var rows := set index | index in covered :: index / g.TilesAcross();
    match (|columns| > 1, |rows| > 1)
    case (false, false) => Neither
    case (true, false) => X
    case (false, true) => Y
    case (true, true) => XAndY
  }

  lemma SeveralMembers<T>(s: set<T>)
    ensures |s| > 1 <==> exists a, b :: a in s && b in s && a != b
  {
    if a, b :| a in s && b in s && a != b {
      assert {a, b} <= s;
      SubsetSize({a, b}, s);
    }
    if |s| > 1 {
      var a :| a in s;
      assert |s - {a}| == |s| - 1;
      var b :| b in s - {a};
    }
  }

  /** Two pixels of the window lie in different tile columns. */
  ghost predicate SpansColumns(g: Grid, w: Window)
    requires g.WellFormed()
  {
    exists a: nat, b: nat :: w.Contains(w.rowOff, a) && w.Contains(w.rowOff, b) && a / g.tileWidth != b / g.tileWidth
  }

  /** Two pixels of the window lie in different tile rows. */
  ghost predicate SpansRows(g: Grid, w: Window)
    requires g.WellFormed()
  {
    exists a: nat, b: nat :: w.Contains(a, w.colOff) && w.Contains(b, w.colOff) && a / g.tileHeight != b / g.tileHeight
  }

  /** An axis is reported crossed exactly when the window spans more than one tile along it. */
  lemma CrossedAxesMeaning(g: Grid, w: Window, plan: seq<u32>)
    requires g.WellFormed() && w.Inside(g) && IsPlan(g, w, Success(plan))
    ensures CrossedAxes(g, plan) in {X, XAndY} <==> SpansColumns(g, w)
    ensures CrossedAxes(g, plan) in {Y, XAndY} <==> SpansRows(g, w)
  {
    CrossedColumns(g, w, plan);
    CrossedRows(g, w, plan);
  }

  lemma CrossedColumns(g: Grid, w: Window, plan: seq<u32>)
    requires g.WellFormed() && w.Inside(g) && IsPlan(g, w, Success(plan))
    ensures |set index | index in plan :: index % g.TilesAcross()| > 1 <==> SpansColumns(g, w)
  {
    var columns := set index | index in plan :: index % g.TilesAcross();
    SeveralMembers(columns);
    if SpansColumns(g, w) {
      var a: nat, b: nat :| w.Contains(w.rowOff, a) && w.Contains(w.rowOff, b) && a / g.tileWidth != b / g.tileWidth;
      PixelIsPlanned(g, w, plan, w.rowOff, a);
      PixelIsPlanned(g, w, plan, w.rowOff, b);
      assert a / g.tileWidth in columns && b / g.tileWidth in columns;
    }
    if a, b :| a in plan && b in plan && a % g.TilesAcross() != b % g.TilesAcross() {
      PlannedTilePixel(g, w, plan, a);
      PlannedTilePixel(g, w, plan, b);
    }
  }

  lemma CrossedRows(g: Grid, w: Window, plan: seq<u32>)
    requires g.WellFormed() && w.Inside(g) && IsPlan(g, w, Success(plan))
    ensures |set index | index in plan :: index / g.TilesAcross()| > 1 <==> SpansRows(g, w)
  {
    var rows := set index | index in plan :: index / g.TilesAcross();
    SeveralMembers(rows);
    if SpansRows(g, w) {
      var a: nat, b: nat :| w.Contains(a, w.colOff) && w.Contains(b, w.colOff) && a / g.tileHeight != b / g.tileHeight;
      PixelIsPlanned(g, w, plan, a, w.colOff);
      PixelIsPlanned(g, w, plan, b, w.colOff);
      assert a / g.tileHeight in rows && b / g.tileHeight in rows;
    }
    if a, b :| a in plan && b in plan && a / g.TilesAcross() != b / g.TilesAcross() {
      PlannedTilePixel(g, w, plan, a);
      PlannedTilePixel(g, w, plan, b);
    }
  }

  lemma PixelIsPlanned(g: Grid, w: Window, plan: seq<u32>, row: nat, col: nat)
    requires g.WellFormed() && w.Inside(g) && IsPlan(g, w, Success(plan)) && w.Contains(row, col)
    ensures exists index :: index in plan
                            && index % g.TilesAcross() == col / g.tileWidth
                            && index / g.TilesAcross() == row / g.tileHeight
  {
    PixelTile(g, w, row, col);
    PlanIsExact(g, w, plan);
    assert Meets(g, w, g.TileOf(row, col));
  }

  lemma PlannedTilePixel(g: Grid, w: Window, plan: seq<u32>, index: u32)
    requires g.WellFormed() && w.Inside(g) && IsPlan(g, w, Success(plan)) && index in plan
    ensures exists a: nat :: w.Contains(w.rowOff, a) && a / g.tileWidth == index % g.TilesAcross()
    ensures exists a: nat :: w.Contains(a, w.colOff) && a / g.tileHeight == index / g.TilesAcross()
  {
    PlanIsExact(g, w, plan);
    MeetsIffInSpan(g, w, index);
    var c, r := index % g.TilesAcross(), index / g.TilesAcross();
    TileHasWindowPixel(g, w, c, r);
    assert w.Contains(w.rowOff, Max(w.colOff, c * g.tileWidth));
    assert w.Contains(Max(w.rowOff, r * g.tileHeight), w.colOff);
  }

  // ---- Copy span ----------------------------------------------------------------------

  /** Live (not padded) length of a tile along one axis, and the stretch of the window it covers. */
  datatype AxisSpan = AxisSpan(live: u32, dst: u32, copy: u32)

  function CopyAxis(off: u32, len: u32, extent: u32, size: u32, tile: u32): (s: AxisSpan)
    requires len > 0 && size > 0 && off + len <= extent
    requires off / size <= tile <= (off + len - 1) / size
    ensures tile * size < extent && s.live == Min(size, extent - tile * size) > 0 && s.copy > 0
    ensures tile * size <= s.dst && s.dst + s.copy <= tile * size + s.live
    ensures off <= s.dst && s.dst + s.copy <= off + len
    ensures forall x: nat :: s.dst <= x < s.dst + s.copy <==> off <= x < off + len && x / size == tile
  {
    MulMono(0, tile, size);
    AxisOverlap(off, len, extent, size, tile);
    var tileStart: u32 := tile * size;
    var rest: u32 := extent - tileStart;
    var live: u32 := Min(size, rest);
    var dst: u32 := Max(off, tileStart);
    var windowEnd: u32 := off + len;
    var tileEnd: u32 := tileStart + live;
    var copyEnd: u32 := Min(windowEnd, tileEnd);
    var copy: u32 := copyEnd - dst;
    AxisSpan(live, dst, copy)
  }

  lemma AxisOverlap(off: u32, len: u32, extent: u32, size: u32, tile: nat)
    requires len > 0 && size > 0 && off + len <= extent
    requires off / size <= tile <= (off + len - 1) / size
    ensures tile * size < extent
    ensures var live := Min(size, extent - tile * size);
            var first, end := Max(off, tile * size), Min(off + len, tile * size + live);
            && first < end
            && (forall x: nat :: first <= x < end <==> off <= x < off + len && x / size == tile)
  {
    AxisPixel(off, len, size, tile);
    var live := Min(size, extent - tile * size);
    var first, end := Max(off, tile * size), Min(off + len, tile * size + live);
    QuotientWindow(first, tile, size);
    forall x: nat ensures first <= x < end <==> off <= x < off + len && x / size == tile {
      QuotientWindow(x, tile, size);
    }
  }

  datatype CopySpan = CopySpan(srcWidth: u32, srcHeight: u32, dstCol: u32, dstRow: u32, copyWidth: u32, copyHeight: u32)

  /** The rectangle to copy holds exactly the window pixels that the tile stores. */
  function TileCopySpan(g: Grid, w: Window, tileCol: u32, tileRow: u32): (s: CopySpan)
    requires g.WellFormed() && w.Inside(g) && SpanOf(g, w).Has(tileCol, tileRow)
    ensures forall row: nat, col: nat ::
              s.dstRow <= row < s.dstRow + s.copyHeight && s.dstCol <= col < s.dstCol + s.copyWidth
              <==> w.Contains(row, col) && row / g.tileHeight == tileRow && col / g.tileWidth == tileCol
  {
    var x := CopyAxis(w.colOff, w.width, g.width, g.tileWidth, tileCol);
    var y := CopyAxis(w.rowOff, w.height, g.height, g.tileHeight, tileRow);
    CopySpan(x.live, y.live, x.dst, y.dst, x.copy, y.copy)
  }
}
