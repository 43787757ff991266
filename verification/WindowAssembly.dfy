/**
  Copying decoded tiles into the window buffer, and the reader's main law: the assembled
  window is the crop of the untiled raster.
 */
module WindowAssembly {
  import opened Prelude
  import opened TileGrid
  import opened WindowDecode

  // ---- Copying one tile ---------------------------------------------------------------

  /** Global row and column of position `k` of the window buffer. */
  function RowAt(w: Window, k: nat): nat
    requires w.NonEmpty()
  {
    QuotientFits(k, w.width);
    w.rowOff + k / w.width
  }

  function ColAt(w: Window, k: nat): nat
    requires w.NonEmpty()
  {
    w.colOff + k % w.width
  }

  lemma BufferCell(w: Window, k: nat)
    requires w.NonEmpty() && k < w.height * w.width
    ensures w.Contains(RowAt(w, k), ColAt(w, k))
    ensures k == (RowAt(w, k) - w.rowOff) * w.width + (ColAt(w, k) - w.colOff)
  {
    CellOf(k, w.width, w.height);
  }

  /** A planned tile of a window. */
  predicate Covered(g: Grid, w: Window, index: nat)
    requires g.WellFormed()
  {
    w.Inside(g) && SpanOf(g, w).Has(index % g.TilesAcross(), index / g.TilesAcross())
  }

  /** Where a tile's live samples keep the pixel `(row, col)`. */
  function SourcePosition(g: Grid, index: nat, row: nat, col: nat): int
    requires g.WellFormed() && index < g.TilesAcross() * g.TilesDown()
  {
    (row - (index / g.TilesAcross()) * g.tileHeight) * LiveWidth(g, index)
    + (col - (index % g.TilesAcross()) * g.tileWidth)
  }

  lemma CoveredIsTile(g: Grid, w: Window, index: nat)
    requires g.WellFormed() && Covered(g, w, index)
    ensures index < g.TilesAcross() * g.TilesDown()
  {
    SpanInGrid(g, w);
    QuotientFits(index, g.TilesAcross());
    CellInBounds(index / g.TilesAcross(), index % g.TilesAcross(), g.TilesAcross(), g.TilesDown());
  }

  lemma AxisSource(x: nat, tile: nat, size: nat, extent: nat)
    requires size > 0 && x / size == tile && x < extent
    ensures 0 <= x - tile * size < Min(size, extent - tile * size)
  {
    QuotientWindow(x, tile, size);
  }

  /** The offset of a pixel inside its tile is a live one. */
  lemma SourceOffsets(g: Grid, w: Window, index: nat, row: nat, col: nat)
    requires g.WellFormed() && Covered(g, w, index) && index < g.TilesAcross() * g.TilesDown()
    requires w.Contains(row, col) && g.TileOf(row, col) == index
    ensures 0 <= row - (index / g.TilesAcross()) * g.tileHeight < LiveHeight(g, index)
    ensures 0 <= col - (index % g.TilesAcross()) * g.tileWidth < LiveWidth(g, index)
  {
    PixelTile(g, w, row, col);
    AxisSource(row, index / g.TilesAcross(), g.tileHeight, g.height);
    AxisSource(col, index % g.TilesAcross(), g.tileWidth, g.width);
  }

  lemma SourceInTile(g: Grid, w: Window, index: nat, row: nat, col: nat)
    requires g.WellFormed() && Covered(g, w, index)
    requires w.Contains(row, col) && g.TileOf(row, col) == index
    ensures index < g.TilesAcross() * g.TilesDown()
    ensures 0 <= SourcePosition(g, index, row, col) < LiveHeight(g, index) * LiveWidth(g, index)
  {
    CoveredIsTile(g, w, index);
    SourceOffsets(g, w, index, row, col);
    CellInBounds(row - (index / g.TilesAcross()) * g.tileHeight, col - (index % g.TilesAcross()) * g.tileWidth,
                 LiveWidth(g, index), LiveHeight(g, index));
  }

  predicate TileFits<T>(g: Grid, w: Window, index: nat, data: seq<T>)
    requires g.WellFormed()
  {
    && Covered(g, w, index)
    && (CoveredIsTile(g, w, index); |data| == LiveHeight(g, index) * LiveWidth(g, index))
  }

  /** The buffer with the tile's pixels above global row `end` replaced by its samples. */
  function PasteRows<T>(g: Grid, w: Window, index: nat, data: seq<T>, out: seq<T>, end: int): (r: seq<T>)
    requires g.WellFormed() && TileFits(g, w, index, data) && |out| == w.height * w.width
    ensures |r| == |out|
  {
    seq(|out|, k requires 0 <= k < |out| =>
      BufferCell(w, k);
      if g.TileOf(RowAt(w, k), ColAt(w, k)) == index && RowAt(w, k) < end then
        SourceInTile(g, w, index, RowAt(w, k), ColAt(w, k));
        data[SourcePosition(g, index, RowAt(w, k), ColAt(w, k))]
      else out[k])
  }

  /** The buffer with every pixel of the tile replaced by its sample, and no other. */
  function Paste<T>(g: Grid, w: Window, index: nat, data: seq<T>, out: seq<T>): (r: seq<T>)
    requires g.WellFormed() && TileFits(g, w, index, data) && |out| == w.height * w.width
    ensures |r| == |out|
  {
    PasteRows(g, w, index, data, out, w.rowOff + w.height)
  }

  /** `copy_from_slice`. */
  method CopySlice<T>(out: array<T>, dstStart: nat, data: seq<T>, srcStart: nat, len: nat)
    requires dstStart + len <= out.Length && srcStart + len <= |data|
    modifies out
    ensures forall k :: 0 <= k < out.Length ==>
              out[k] == if dstStart <= k < dstStart + len then data[srcStart + (k - dstStart)] else old(out[k])
  {
    forall j | 0 <= j < len {
      out[dstStart + j] := data[srcStart + j];
    }
  }

  /** The buffer and tile positions of the first pixel of the copied row `row`. */
  lemma CopyRowPositions(g: Grid, w: Window, index: nat, span: CopySpan, row: nat)
    requires g.WellFormed() && Covered(g, w, index) && index < g.TilesAcross() * g.TilesDown()
    requires index / g.TilesAcross() <= U32_MAX && index % g.TilesAcross() <= U32_MAX
    requires span == TileCopySpan(g, w, index % g.TilesAcross(), index / g.TilesAcross())
    requires row < span.copyHeight
    ensures var dst := (span.dstRow + row - w.rowOff) * w.width + (span.dstCol - w.colOff);
            && 0 <= (span.dstRow + row - w.rowOff) * w.width
            && 0 <= dst && dst + span.copyWidth <= w.height * w.width
    ensures var src := SourcePosition(g, index, span.dstRow + row, span.dstCol);
            && 0 <= src && src + span.copyWidth <= LiveHeight(g, index) * LiveWidth(g, index)
  {
    var tileCol, tileRow := index % g.TilesAcross(), index / g.TilesAcross();
    var x := CopyAxis(w.colOff, w.width, g.width, g.tileWidth, tileCol);
    var y := CopyAxis(w.rowOff, w.height, g.height, g.tileHeight, tileRow);
    MulMono(0, span.dstRow + row - w.rowOff, w.width);
    CellInBounds(span.dstRow + row - w.rowOff, span.dstCol - w.colOff, w.width, w.height);
    CellInBounds(span.dstRow + row - w.rowOff, span.dstCol + span.copyWidth - 1 - w.colOff, w.width, w.height);
    var r := span.dstRow + row - tileRow * g.tileHeight;
    CellInBounds(r, span.dstCol - tileCol * g.tileWidth, LiveWidth(g, index), LiveHeight(g, index));
    CellInBounds(r, span.dstCol + span.copyWidth - 1 - tileCol * g.tileWidth, LiveWidth(g, index),
        LiveHeight(g, index));
  }

  /** Position `k` lies in the copied stretch exactly when its pixel is in the row and in the tile. */
  lemma InCopiedRow(g: Grid, w: Window, index: nat, span: CopySpan, row: nat, k: nat)
    requires g.WellFormed() && Covered(g, w, index)
    requires index / g.TilesAcross() <= U32_MAX && index % g.TilesAcross() <= U32_MAX
    requires span == TileCopySpan(g, w, index % g.TilesAcross(), index / g.TilesAcross())
    requires row < span.copyHeight && k < w.height * w.width
    ensures var dst := (span.dstRow + row - w.rowOff) * w.width + (span.dstCol - w.colOff);
            && w.Contains(RowAt(w, k), ColAt(w, k))
            && (dst <= k < dst + span.copyWidth <==>
                g.TileOf(RowAt(w, k), ColAt(w, k)) == index && RowAt(w, k) == span.dstRow + row)
            && (dst <= k < dst + span.copyWidth ==> k - dst == ColAt(w, k) - span.dstCol)
  {
    var y := CopyAxis(w.rowOff, w.height, g.height, g.tileHeight, index / g.TilesAcross());
    var x := CopyAxis(w.colOff, w.width, g.width, g.tileWidth, index % g.TilesAcross());
    BufferCell(w, k);
    TileMembership(g, w, index, RowAt(w, k), ColAt(w, k));
    var dst := (span.dstRow + row - w.rowOff) * w.width + (span.dstCol - w.colOff);
    if dst <= k < dst + span.copyWidth {
      DivModUnique(k, span.dstRow + row - w.rowOff, k - (span.dstRow + row - w.rowOff) * w.width, w.width);
    }
  }

  lemma TileMembership(g: Grid, w: Window, index: nat, row: nat, col: nat)
    requires g.WellFormed() && w.Inside(g) && w.Contains(row, col)
    ensures g.TileOf(row, col) == index <==>
            row / g.tileHeight == index / g.TilesAcross() && col / g.tileWidth == index % g.TilesAcross()
  {
    PixelTile(g, w, row, col);
    assert index == (index / g.TilesAcross()) * g.TilesAcross() + index % g.TilesAcross();
  }

  /** Copying one more row of the tile. */
  lemma PasteNextRow<T>(g: Grid, w: Window, index: nat, data: seq<T>, was: seq<T>, before: seq<T>, after: seq<T>,
                        span: CopySpan, row: nat)
    requires g.WellFormed() && TileFits(g, w, index, data) && |was| == w.height * w.width
    requires index / g.TilesAcross() <= U32_MAX && index % g.TilesAcross() <= U32_MAX
    requires span == TileCopySpan(g, w, index % g.TilesAcross(), index / g.TilesAcross())
    requires row < span.copyHeight && before == PasteRows(g, w, index, data, was, span.dstRow + row)
    requires |after| == |was| && index < g.TilesAcross() * g.TilesDown()
    requires var dst := (span.dstRow + row - w.rowOff) * w.width + (span.dstCol - w.colOff);
             var src := SourcePosition(g, index, span.dstRow + row, span.dstCol);
             && 0 <= src && src + span.copyWidth <= |data|
             && forall k :: 0 <= k < |after| ==>
               after[k] == if dst <= k < dst + span.copyWidth then data[src + (k - dst)] else before[k]
    ensures after == PasteRows(g, w, index, data, was, span.dstRow + row + 1)
  {
    forall k | 0 <= k < |after|
      ensures after[k] == PasteRows(g, w, index, data, was, span.dstRow + row + 1)[k]
    {
      InCopiedRow(g, w, index, span, row, k);
      if g.TileOf(RowAt(w, k), ColAt(w, k)) == index {
        SourceInTile(g, w, index, RowAt(w, k), ColAt(w, k));
      }
    }
  }

  /** `copy_tile_u8` and `copy_tile_f32`: every offset is computed in 32 bits. */
  method CopyTile<T>(data: seq<T>, out: array<T>, g: Grid, w: Window, index: u32)
    requires g.WellFormed() && TileFits(g, w, index, data)
    requires out.Length == w.height * w.width <= U32_MAX && |data| <= U32_MAX
    modifies out
    ensures out[..] == Paste(g, w, index, data, old(out[..]))
  {
    CoveredIsTile(g, w, index);
    TileInGrid(g, index);
    var tileCol: u32 := index % g.TilesAcross();
    var tileRow: u32 := index / g.TilesAcross();
    var span := TileCopySpan(g, w, tileCol, tileRow);
    ghost var was := out[..];
    assert out[..] == PasteRows(g, w, index, data, was, span.dstRow) by {
      NothingAbove(g, w, index, data, was, span);
    }
    for row := 0 to span.copyHeight
      invariant out[..] == PasteRows(g, w, index, data, was, span.dstRow + row)
    {
      ghost var before := out[..];
      CopyRowPositions(g, w, index, span, row);
      var srcStart, dstStart := CopyOffsets(g, w, index, tileCol, tileRow, span, row);
      CopySlice(out, dstStart, data, srcStart, span.copyWidth);
      PasteNextRow(g, w, index, data, was, before, out[..], span, row);
    }
    NothingBelow(g, w, index, data, was, span);
  }

  /** Start of one row in the tile and in the buffer, each operation in 32 bits. */
  method CopyOffsets(g: Grid, w: Window, index: u32, tileCol: u32, tileRow: u32, span: CopySpan, row: u32)
    returns (srcStart: u32, dstStart: u32)
    requires g.WellFormed() && Covered(g, w, index) && index < g.TilesAcross() * g.TilesDown()
    requires tileCol == index % g.TilesAcross() && tileRow == index / g.TilesAcross()
    requires span == TileCopySpan(g, w, tileCol, tileRow) && row < span.copyHeight
    requires LiveHeight(g, index) * LiveWidth(g, index) <= U32_MAX && w.height * w.width <= U32_MAX
    ensures srcStart == SourcePosition(g, index, span.dstRow + row, span.dstCol)
    ensures dstStart == (span.dstRow + row - w.rowOff) * w.width + (span.dstCol - w.colOff)
  {
    ghost var x := CopyAxis(w.colOff, w.width, g.width, g.tileWidth, tileCol);
    ghost var y := CopyAxis(w.rowOff, w.height, g.height, g.tileHeight, tileRow);
    TileInGrid(g, index);
    CopyRowPositions(g, w, index, span, row);
    var globalRow: u32 := span.dstRow + row;
    var tileY: u32 := tileRow * g.tileHeight;
    var tileX: u32 := tileCol * g.tileWidth;
    var localRow: u32 := globalRow - tileY;
    var localCol: u32 := span.dstCol - tileX;
    MulMono(0, localRow, span.srcWidth);
    var srcBase: u32 := localRow * span.srcWidth;
    srcStart := srcBase + localCol;
    var bufferRow: u32 := globalRow - w.rowOff;
    var bufferBase: u32 := bufferRow * w.width;
    var bufferCol: u32 := span.dstCol - w.colOff;
    dstStart := bufferBase + bufferCol;
  }

  /** Every pixel that the tile stores lies in the copied rows. */
  lemma TilePixelInSpan(g: Grid, w: Window, index: u32, span: CopySpan, k: nat)
    requires g.WellFormed() && Covered(g, w, index) && k < w.height * w.width
    requires index / g.TilesAcross() <= U32_MAX && index % g.TilesAcross() <= U32_MAX
    requires span == TileCopySpan(g, w, index % g.TilesAcross(), index / g.TilesAcross())
    ensures w.Contains(RowAt(w, k), ColAt(w, k))
    ensures g.TileOf(RowAt(w, k), ColAt(w, k)) == index ==> span.dstRow <= RowAt(w, k) < span.dstRow + span.copyHeight
  {
    BufferCell(w, k);
    TileMembership(g, w, index, RowAt(w, k), ColAt(w, k));
  }

  lemma NothingAbove<T>(g: Grid, w: Window, index: u32, data: seq<T>, was: seq<T>, span: CopySpan)
    requires g.WellFormed() && TileFits(g, w, index, data) && |was| == w.height * w.width
    requires index / g.TilesAcross() <= U32_MAX && index % g.TilesAcross() <= U32_MAX
    requires span == TileCopySpan(g, w, index % g.TilesAcross(), index / g.TilesAcross())
    ensures PasteRows(g, w, index, data, was, span.dstRow) == was
  {
    forall k | 0 <= k < |was| ensures PasteRows(g, w, index, data, was, span.dstRow)[k] == was[k] {
      TilePixelInSpan(g, w, index, span, k);
    }
  }

  lemma NothingBelow<T>(g: Grid, w: Window, index: u32, data: seq<T>, was: seq<T>, span: CopySpan)
    requires g.WellFormed() && TileFits(g, w, index, data) && |was| == w.height * w.width
    requires index / g.TilesAcross() <= U32_MAX && index % g.TilesAcross() <= U32_MAX
    requires span == TileCopySpan(g, w, index % g.TilesAcross(), index / g.TilesAcross())
    ensures PasteRows(g, w, index, data, was, span.dstRow + span.copyHeight) == Paste(g, w, index, data, was)
  {
    forall k | 0 <= k < |was|
      ensures PasteRows(g, w, index, data, was, span.dstRow + span.copyHeight)[k] == Paste(g, w, index, data, was)[k]
    {
      TilePixelInSpan(g, w, index, span, k);
    }
  }

  // ---- The whole window ---------------------------------------------------------------

  datatype WindowData = WindowBytes(bytes: seq<u8>) | WindowFloats(bits: seq<u32>)

  /** The tiles decoded so far, in plan order, or the first failure. */
  function DecodedTiles(m: Metadata, fp: FloatCast, inflate: Inflate, tiles: seq<u32>, chunks: seq<seq<u8>>, n: nat):
      (r: Result<seq<TileData>, DecodeError>)
    requires m.grid.WellFormed() && n <= |tiles| && n <= |chunks|
    requires forall i :: 0 <= i < |tiles| ==> tiles[i] < m.grid.TilesAcross() * m.grid.TilesDown()
    ensures r.Success? ==> |r.value| == n
    ensures r.Success? ==> forall i :: 0 <= i < n ==>
              Success(r.value[i]) == DecodedChunk(m, fp, inflate, chunks[i], tiles[i])
  {
    if n == 0 then Success([])
    else
      var front :- DecodedTiles(m, fp, inflate, tiles, chunks, n - 1);
      var last :- DecodedChunk(m, fp, inflate, chunks[n - 1], tiles[n - 1]);
      Success(front + [last])
  }

  /** The buffer after pasting the decoded tiles, in order. */
  function Assembled<T>(g: Grid, w: Window, tiles: seq<u32>, data: seq<seq<T>>, prefill: seq<T>): (r: seq<T>)
    requires g.WellFormed() && |data| <= |tiles| && |prefill| == w.height * w.width
    requires forall i :: 0 <= i < |data| ==> TileFits(g, w, tiles[i], data[i])
    ensures |r| == |prefill|
  {
    if data == [] then prefill
    else
      var last := |data| - 1;
      Paste(g, w, tiles[last], data[last], Assembled(g, w, tiles, data[..last], prefill))
  }

  /** A pixel shows the sample of the last pasted tile that stores it. */
  lemma {:induction false} AssembledCell<T>(g: Grid, w: Window, tiles: seq<u32>, data: seq<seq<T>>, prefill: seq<T>,
                                            i: nat, k: nat)
    requires g.WellFormed() && |data| <= |tiles| && |prefill| == w.height * w.width
    requires forall j :: 0 <= j < |data| ==> TileFits(g, w, tiles[j], data[j])
    requires i < |data| && k < |prefill| && g.TileOf(RowAt(w, k), ColAt(w, k)) == tiles[i]
    requires forall j :: i < j < |data| ==> tiles[j] != tiles[i]
    ensures tiles[i] < g.TilesAcross() * g.TilesDown()
    ensures 0 <= SourcePosition(g, tiles[i], RowAt(w, k), ColAt(w, k)) < |data[i]|
    ensures Assembled(g, w, tiles, data, prefill)[k] == data[i][SourcePosition(g, tiles[i], RowAt(w, k), ColAt(w, k))]
    decreases |data|
  {
    BufferCell(w, k);
    SourceInTile(g, w, tiles[i], RowAt(w, k), ColAt(w, k));
    if i < |data| - 1 {
      AssembledCell(g, w, tiles, data[..|data| - 1], prefill, i, k);
    }
  }

  /** A pixel that no pasted tile stores keeps the declared nodata. */
  lemma {:induction false} UnwrittenCell<T>(g: Grid, w: Window, tiles: seq<u32>, data: seq<seq<T>>, prefill: seq<T>,
                                            k: nat)
    requires g.WellFormed() && |data| <= |tiles| && |prefill| == w.height * w.width
    requires forall j :: 0 <= j < |data| ==> TileFits(g, w, tiles[j], data[j])
    requires k < |prefill| && forall j :: 0 <= j < |data| ==> tiles[j] != g.TileOf(RowAt(w, k), ColAt(w, k))
    ensures Assembled(g, w, tiles, data, prefill)[k] == prefill[k]
    decreases |data|
  {
    if data != [] {
      UnwrittenCell(g, w, tiles, data[..|data| - 1], prefill, k);
    }
  }

  /** The nodata byte of a direction raster. */
  function DirectionNodataByte(m: Metadata): Result<u8, DecodeError>
    requires m.sampleType.Width() == 1
  {
    if m.sampleType.U8? then
      match m.nodata.asU8
      case Some(v) => Success(v)
      case None => Failure(NodataNotRepresentable)
    else
      match m.nodata.asI8
      case Some(v) => Success(if v < 0 then v + 0x100 else v)
      case None => Failure(NodataNotRepresentable)
  }

  function Filled<T>(w: Window, value: T): (s: seq<T>)
    requires 0 <= w.height * w.width
    ensures |s| == w.height * w.width
  {
    seq(w.height * w.width, _ => value)
  }

  function ByteTiles(tiles: seq<TileData>): (s: seq<seq<u8>>)
    requires forall i :: 0 <= i < |tiles| ==> tiles[i].Bytes8?
    ensures |s| == |tiles|
  {
    seq(|tiles|, i requires 0 <= i < |tiles| => tiles[i].bytes)
  }

  function FloatTiles(tiles: seq<TileData>): (s: seq<seq<u32>>)
    requires forall i :: 0 <= i < |tiles| ==> tiles[i].Floats?
    ensures |s| == |tiles|
  {
    seq(|tiles|, i requires 0 <= i < |tiles| => tiles[i].bits)
  }

  lemma ByteTilesAppend(tiles: seq<TileData>, next: TileData)
    requires forall i :: 0 <= i < |tiles| ==> tiles[i].Bytes8?
    requires next.Bytes8?
    ensures ByteTiles(tiles + [next]) == ByteTiles(tiles) + [next.bytes]
  {
  }

  lemma FloatTilesAppend(tiles: seq<TileData>, next: TileData)
    requires forall i :: 0 <= i < |tiles| ==> tiles[i].Floats?
    requires next.Floats?
    ensures FloatTiles(tiles + [next]) == FloatTiles(tiles) + [next.bits]
  {
  }

  lemma AssembledNext<T>(g: Grid, w: Window, tiles: seq<u32>, data: seq<seq<T>>, prefill: seq<T>, next: seq<T>)
    requires g.WellFormed() && |data| < |tiles| && |prefill| == w.height * w.width
    requires forall i :: 0 <= i < |data| ==> TileFits(g, w, tiles[i], data[i])
    requires TileFits(g, w, tiles[|data|], next)
    ensures Assembled(g, w, tiles, data + [next], prefill)
         == Paste(g, w, tiles[|data|], next, Assembled(g, w, tiles, data, prefill))
  {
    assert (data + [next])[..|data|] == data;
  }

  lemma AreaNonNegative(w: Window)
    ensures 0 <= w.height * w.width
  {
    MulMono(0, w.height, w.width);
  }

  /** The planned tiles all cover the window and exist in the grid. */
  predicate TilesCovered(m: Metadata, w: Window, tiles: seq<u32>) {
    && m.grid.WellFormed() && w.Inside(m.grid)
    && forall i :: 0 <= i < |tiles| ==>
        Covered(m.grid, w, tiles[i]) && tiles[i] < m.grid.TilesAcross() * m.grid.TilesDown()
  }

  /** Paste the first `n` tiles of a byte raster over the prefilled buffer, or report the first bad tile. */
  function ByteWindow(m: Metadata, fp: FloatCast, inflate: Inflate, w: Window, tiles: seq<u32>, chunks: seq<seq<u8>>,
                      n: nat,
                      prefill: seq<u8>): Result<seq<u8>, DecodeError>
    requires TilesCovered(m, w, tiles) && m.sampleType.Width() == 1
    requires n <= |tiles| && n <= |chunks| && |prefill| == w.height * w.width
  {
    var decoded :- DecodedTiles(m, fp, inflate, tiles, chunks, n);
    Success(Assembled(m.grid, w, tiles, ByteTiles(decoded), prefill))
  }

  /** The same for a raster delivered as 32-bit floats. */
  function FloatWindow(m: Metadata, fp: FloatCast, inflate: Inflate, w: Window, tiles: seq<u32>, chunks: seq<seq<u8>>,
                       n: nat,
                       prefill: seq<u32>): Result<seq<u32>, DecodeError>
    requires TilesCovered(m, w, tiles) && m.sampleType.Width() == 4
    requires n <= |tiles| && n <= |chunks| && |prefill| == w.height * w.width
  {
    var decoded :- DecodedTiles(m, fp, inflate, tiles, chunks, n);
    Success(Assembled(m.grid, w, tiles, FloatTiles(decoded), prefill))
  }

  /** What decoding returns for every window, plan and chunk contents, failures included. */
  function DecodedWindow(m: Metadata, fp: FloatCast, inflate: Inflate, w: Window, tiles: seq<u32>,
                         chunks: seq<seq<u8>>):
      Result<WindowData, DecodeError>
    requires TilesCovered(m, w, tiles)
  {
    AreaNonNegative(w);
    var n := Min(|tiles|, |chunks|);
    if m.sampleType.Width() == 1 then
      var nodata :- DirectionNodataByte(m);
      if w.height * w.width > MAX_WINDOW_ALLOCATION_BYTES then Failure(WindowTooLarge)
      else
        var bytes :- ByteWindow(m, fp, inflate, w, tiles, chunks, n, Filled(w, nodata));
        Success(WindowBytes(bytes))
    else
      if 4 * (w.height * w.width) > MAX_WINDOW_ALLOCATION_BYTES then Failure(WindowTooLarge)
      else
        var bits :- FloatWindow(m, fp, inflate, w, tiles, chunks, n, Filled(w, FloatNodata(m, fp)));
        Success(WindowFloats(bits))
  }

  function FloatNodata(m: Metadata, fp: FloatCast): u32 {
    if m.nodata.asF32.Some? then m.nodata.asF32.value else fp.nan
  }

  lemma {:induction false} FirstFailureStays(m: Metadata, fp: FloatCast, inflate: Inflate, tiles: seq<u32>,
                                             chunks: seq<seq<u8>>, i: nat, n: nat)
    requires m.grid.WellFormed() && i <= n <= |tiles| && n <= |chunks|
    requires forall j :: 0 <= j < |tiles| ==> tiles[j] < m.grid.TilesAcross() * m.grid.TilesDown()
    requires DecodedTiles(m, fp, inflate, tiles, chunks, i).Failure?
    ensures DecodedTiles(m, fp, inflate, tiles, chunks, n) == DecodedTiles(m, fp, inflate, tiles, chunks, i)
  {
    if i < n {
      FirstFailureStays(m, fp, inflate, tiles, chunks, i, n - 1);
    }
  }

  /** A tile that passed the chunk ceiling is addressed in 32 bits. */
  lemma DecodedTileIsSmall(m: Metadata, fp: FloatCast, inflate: Inflate, chunk: seq<u8>, index: nat)
    requires m.grid.WellFormed() && index < m.grid.TilesAcross() * m.grid.TilesDown()
    requires DecodedChunk(m, fp, inflate, chunk, index).Success?
    ensures LiveHeight(m.grid, index) * LiveWidth(m.grid, index) <= MAX_DECODED_CHUNK_BYTES
  {
    ChunkShape(m);
    MulMono(LiveHeight(m.grid, index), m.grid.tileHeight, LiveWidth(m.grid, index));
    MulMono(LiveWidth(m.grid, index), m.grid.tileWidth, m.grid.tileHeight);
  }

  method PasteByteTiles(chunks: seq<seq<u8>>, m: Metadata, fp: FloatCast, inflate: Inflate, w: Window, tiles: seq<u32>,
                        n: nat, out: array<u8>) returns (failed: Option<DecodeError>)
    requires TilesCovered(m, w, tiles) && m.sampleType.Width() == 1
    requires n <= |tiles| && n <= |chunks| && out.Length == w.height * w.width <= MAX_WINDOW_ALLOCATION_BYTES
    modifies out
    ensures match failed
            case None => ByteWindow(m, fp, inflate, w, tiles, chunks, n, old(out[..])) == Success(out[..])
            case Some(e) => ByteWindow(m, fp, inflate, w, tiles, chunks, n, old(out[..])) == Failure(e)
  {
    ghost var prefill := out[..];
    ghost var decoded: seq<TileData> := [];
    for i := 0 to n
      invariant DecodedTiles(m, fp, inflate, tiles, chunks, i) == Success(decoded)
      invariant out[..] == Assembled(m.grid, w, tiles, ByteTiles(decoded), prefill)
    {
      var tile := DecodeOwnedChunk(chunks[i], m, fp, inflate, tiles[i]);
      if tile.Failure? {
        FirstFailureStays(m, fp, inflate, tiles, chunks, i + 1, n);
        return Some(tile.error);
      }
      DecodedTileIsSmall(m, fp, inflate, chunks[i], tiles[i]);
      CopyTile(tile.value.bytes, out, m.grid, w, tiles[i]);
      ByteTilesAppend(decoded, tile.value);
      AssembledNext(m.grid, w, tiles, ByteTiles(decoded), prefill, tile.value.bytes);
      decoded := decoded + [tile.value];
    }
    return None;
  }

  method PasteFloatTiles(chunks: seq<seq<u8>>, m: Metadata, fp: FloatCast, inflate: Inflate, w: Window, tiles: seq<u32>,
                         n: nat, out: array<u32>) returns (failed: Option<DecodeError>)
    requires TilesCovered(m, w, tiles) && m.sampleType.Width() == 4
    requires n <= |tiles| && n <= |chunks| && out.Length == w.height * w.width <= MAX_WINDOW_ALLOCATION_BYTES
    modifies out
    ensures match failed
            case None => FloatWindow(m, fp, inflate, w, tiles, chunks, n, old(out[..])) == Success(out[..])
            case Some(e) => FloatWindow(m, fp, inflate, w, tiles, chunks, n, old(out[..])) == Failure(e)
  {
    ghost var prefill := out[..];
    ghost var decoded: seq<TileData> := [];
    for i := 0 to n
      invariant DecodedTiles(m, fp, inflate, tiles, chunks, i) == Success(decoded)
      invariant out[..] == Assembled(m.grid, w, tiles, FloatTiles(decoded), prefill)
    {
      var tile := DecodeOwnedChunk(chunks[i], m, fp, inflate, tiles[i]);
      if tile.Failure? {
        FirstFailureStays(m, fp, inflate, tiles, chunks, i + 1, n);
        return Some(tile.error);
      }
      DecodedTileIsSmall(m, fp, inflate, chunks[i], tiles[i]);
      CopyTile(tile.value.bits, out, m.grid, w, tiles[i]);
      FloatTilesAppend(decoded, tile.value);
      AssembledNext(m.grid, w, tiles, FloatTiles(decoded), prefill, tile.value.bits);
      decoded := decoded + [tile.value];
    }
    return None;
  }

  method DecodeWindow(chunks: seq<seq<u8>>, m: Metadata, fp: FloatCast, inflate: Inflate, w: Window, tiles: seq<u32>)
    returns (r: Result<WindowData, DecodeError>)
    requires TilesCovered(m, w, tiles)
    ensures r == DecodedWindow(m, fp, inflate, w, tiles, chunks)
  {
    AreaNonNegative(w);
    var n := Min(|tiles|, |chunks|);
    if m.sampleType.Width() == 1 {
      var nodata := DirectionNodataByte(m);
      if nodata.Failure? {
        return Failure(nodata.error);
      }
      if w.height * w.width > MAX_WINDOW_ALLOCATION_BYTES {
        return Failure(WindowTooLarge);
      }
      var out := new u8[w.height * w.width](_ => nodata.value);
      assert out[..] == Filled(w, nodata.value);
      var failed := PasteByteTiles(chunks, m, fp, inflate, w, tiles, n, out);
      return if failed.Some? then Failure(failed.value) else Success(WindowBytes(out[..]));
    }
    if 4 * (w.height * w.width) > MAX_WINDOW_ALLOCATION_BYTES {
      return Failure(WindowTooLarge);
    }
    var nodata := FloatNodata(m, fp);
    var out := new u32[w.height * w.width](_ => nodata);
    assert out[..] == Filled(w, nodata);
    var failed := PasteFloatTiles(chunks, m, fp, inflate, w, tiles, n, out);
    return if failed.Some? then Failure(failed.value) else Success(WindowFloats(out[..]));
  }

  // ---- Tiled reassembly is a crop -----------------------------------------------------

  /** The padded samples of a tile: `raster` beyond the raster's edge is the tile's padding. */
  function PaddedTile<T>(g: Grid, raster: (int, int) -> T, index: nat): (s: seq<T>)
    requires g.WellFormed()
    ensures |s| == g.tileHeight * g.tileWidth && |s| % g.tileWidth == 0
  {
    BlockShape(g.tileHeight, g.tileWidth);
    seq(g.tileHeight * g.tileWidth, j requires 0 <= j < g.tileHeight * g.tileWidth =>
      raster((index / g.TilesAcross()) * g.tileHeight + j / g.tileWidth,
             (index % g.TilesAcross()) * g.tileWidth + j % g.tileWidth))
  }

  /** The plain crop of an untiled raster. */
  function Crop<T>(w: Window, raster: (int, int) -> T): (s: seq<T>)
    requires w.NonEmpty() && 0 <= w.height * w.width
    ensures |s| == w.height * w.width
  {
    seq(w.height * w.width, k requires 0 <= k < w.height * w.width => raster(RowAt(w, k), ColAt(w, k)))
  }

  /** The buffer holds the raster's value at the place of every pixel of the window. */
  ghost predicate ShowsWindow<T>(w: Window, data: seq<T>, raster: (int, int) -> T) {
    && |data| == w.height * w.width
    && forall row, col :: w.Contains(row, col) ==>
         && 0 <= (row - w.rowOff) * w.width + (col - w.colOff) < |data|
         && data[(row - w.rowOff) * w.width + (col - w.colOff)] == raster(row, col)
  }

  /** The buffer holds, at the place of every pixel of the window, what is delivered for the raster's word. */
  ghost predicate ShowsDelivered(m: Metadata, fp: FloatCast, w: Window, bits: seq<u32>, raster: (int, int) -> u32) {
    && |bits| == w.height * w.width
    && forall row, col :: w.Contains(row, col) ==>
         && 0 <= (row - w.rowOff) * w.width + (col - w.colOff) < |bits|
         && DeliveredAs(m.sampleType, fp, m.nodata.asI32, raster(row, col),
                        bits[(row - w.rowOff) * w.width + (col - w.colOff)])
  }

  lemma CropShowsWindow<T>(w: Window, raster: (int, int) -> T)
    requires w.NonEmpty() && 0 <= w.height * w.width
    ensures ShowsWindow(w, Crop(w, raster), raster)
  {
    forall row, col | w.Contains(row, col)
      ensures var k := (row - w.rowOff) * w.width + (col - w.colOff);
              0 <= k < |Crop(w, raster)| && Crop(w, raster)[k] == raster(row, col)
    {
      var k := (row - w.rowOff) * w.width + (col - w.colOff);
      CellInBounds(row - w.rowOff, col - w.colOff, w.width, w.height);
      DivModUnique(k, row - w.rowOff, col - w.colOff, w.width);
      assert RowAt(w, k) == row && ColAt(w, k) == col;
    }
  }

  lemma PaddedAt<T>(g: Grid, raster: (int, int) -> T, index: nat, j: nat, r: nat, c: nat)
    requires g.WellFormed() && j < g.tileHeight * g.tileWidth && j / g.tileWidth == r && j % g.tileWidth == c
    ensures PaddedTile(g, raster, index)[j]
         == raster((index / g.TilesAcross()) * g.tileHeight + r, (index % g.TilesAcross()) * g.tileWidth + c)
  {
  }

  lemma PaddedSample<T>(g: Grid, raster: (int, int) -> T, index: nat, r: nat, c: nat)
    requires g.WellFormed() && r < g.tileHeight && c < g.tileWidth
    ensures 0 <= r * g.tileWidth + c < g.tileHeight * g.tileWidth
    ensures PaddedTile(g, raster, index)[r * g.tileWidth + c]
         == raster((index / g.TilesAcross()) * g.tileHeight + r, (index % g.TilesAcross()) * g.tileWidth + c)
  {
    var j := r * g.tileWidth + c;
    CellInBounds(r, c, g.tileWidth, g.tileHeight);
    DivModUnique(j, r, c, g.tileWidth);
    PaddedAt(g, raster, index, j, r, c);
  }

  lemma ClipSample<T>(samples: seq<T>, n: nat, live: nat, rows: nat, r: nat, c: nat)
    requires 0 < live <= n && |samples| % n == 0 && rows <= |samples| / n && r < rows && c < live
    ensures 0 <= rows * live <= (|samples| / n) * live
    ensures 0 <= r * live + c < rows * live && 0 <= r * n + c < |samples|
    ensures Clip(samples, n, live, rows * live)[r * live + c] == samples[r * n + c]
  {
    MulMono(0, rows, live);
    MulMono(rows, |samples| / n, live);
    CellInBounds(r, c, live, rows);
    CellInBounds(r, c, n, |samples| / n);
    DivModUnique(r * live + c, r, c, live);
  }

  lemma ClipBlock<T>(samples: seq<T>, h: nat, n: nat, live: nat, rows: nat, r: nat, c: nat)
    requires n > 0 && |samples| == h * n && |samples| % n == 0 && 0 < live <= n && r < rows <= h && c < live
    ensures 0 <= rows * live <= (|samples| / n) * live
    ensures 0 <= r * live + c < rows * live && 0 <= r * n + c < |samples|
    ensures Clip(samples, n, live, rows * live)[r * live + c] == samples[r * n + c]
  {
    BlockShape(h, n);
    ClipSample(samples, n, live, rows, r, c);
  }

  /** The clipped samples of a padded tile. */
  function ClippedTile<T>(g: Grid, raster: (int, int) -> T, index: nat): seq<T>
    requires g.WellFormed() && index < g.TilesAcross() * g.TilesDown()
  {
    ClipFits(g, index);
    Clip(PaddedTile(g, raster, index), g.tileWidth, LiveWidth(g, index), LiveHeight(g, index) * LiveWidth(g, index))
  }

  lemma ClipFits(g: Grid, index: nat)
    requires g.WellFormed() && index < g.TilesAcross() * g.TilesDown()
    ensures var live, rows := LiveWidth(g, index), LiveHeight(g, index);
            && (g.tileHeight * g.tileWidth) % g.tileWidth == 0
            && 0 <= rows * live <= ((g.tileHeight * g.tileWidth) / g.tileWidth) * live
  {
    BlockShape(g.tileHeight, g.tileWidth);
    MulMono(0, LiveHeight(g, index), LiveWidth(g, index));
    MulMono(LiveHeight(g, index), g.tileHeight, LiveWidth(g, index));
  }

  /** A tile's samples show the raster at every pixel it stores. */
  ghost predicate ShowsRaster<T>(g: Grid, w: Window, index: nat, data: seq<T>, raster: (int, int) -> T)
    requires g.WellFormed() && index < g.TilesAcross() * g.TilesDown()
  {
    forall row: nat, col: nat :: w.Contains(row, col) && g.TileOf(row, col) == index ==>
      && 0 <= SourcePosition(g, index, row, col) < |data|
      && data[SourcePosition(g, index, row, col)] == raster(row, col)
  }

  lemma ClippedPixel<T>(g: Grid, w: Window, raster: (int, int) -> T, index: nat, row: nat, col: nat)
    requires g.WellFormed() && Covered(g, w, index) && index < g.TilesAcross() * g.TilesDown()
    requires w.Contains(row, col) && g.TileOf(row, col) == index
    ensures 0 <= SourcePosition(g, index, row, col) < |ClippedTile(g, raster, index)|
    ensures ClippedTile(g, raster, index)[SourcePosition(g, index, row, col)] == raster(row, col)
  {
    SourceOffsets(g, w, index, row, col);
    var r := row - (index / g.TilesAcross()) * g.tileHeight;
    var c := col - (index % g.TilesAcross()) * g.tileWidth;
    ClippedSample(g, raster, index, r, c);
  }

  /** Clipping keeps the sample at each live row and column of the tile. */
  lemma ClippedSample<T>(g: Grid, raster: (int, int) -> T, index: nat, r: nat, c: nat)
    requires g.WellFormed() && index < g.TilesAcross() * g.TilesDown()
    requires r < LiveHeight(g, index) <= g.tileHeight && c < LiveWidth(g, index) <= g.tileWidth
    ensures 0 <= r * LiveWidth(g, index) + c < |ClippedTile(g, raster, index)|
    ensures ClippedTile(g, raster, index)[r * LiveWidth(g, index) + c]
         == raster((index / g.TilesAcross()) * g.tileHeight + r, (index % g.TilesAcross()) * g.tileWidth + c)
  {
    ClipFits(g, index);
    ClipBlock(PaddedTile(g, raster, index), g.tileHeight, g.tileWidth, LiveWidth(g, index), LiveHeight(g, index), r, c);
    PaddedSample(g, raster, index, r, c);
  }

  /** Clipping keeps each live pixel at its source position. */
  lemma ClippedTileShowsRaster<T>(g: Grid, w: Window, raster: (int, int) -> T, index: nat)
    requires g.WellFormed() && Covered(g, w, index) && index < g.TilesAcross() * g.TilesDown()
    ensures ShowsRaster(g, w, index, ClippedTile(g, raster, index), raster)
  {
    forall row: nat, col: nat | w.Contains(row, col) && g.TileOf(row, col) == index
      ensures 0 <= SourcePosition(g, index, row, col) < |ClippedTile(g, raster, index)|
      ensures ClippedTile(g, raster, index)[SourcePosition(g, index, row, col)] == raster(row, col)
    {
      ClippedPixel(g, w, raster, index, row, col);
    }
  }

  /** Pasting exactly the planned tiles of a raster leaves its crop: every cell is written by its own tile. */
  lemma AssembledIsCrop<T>(g: Grid, w: Window, plan: seq<u32>, data: seq<seq<T>>, prefill: seq<T>,
                           raster: (int, int) -> T)
    requires g.WellFormed() && w.Inside(g) && IsPlan(g, w, Success(plan)) && |data| == |plan|
    requires |prefill| == w.height * w.width
    requires forall i :: 0 <= i < |data| ==>
              TileFits(g, w, plan[i], data[i]) && plan[i] < g.TilesAcross() * g.TilesDown()
    requires forall i :: 0 <= i < |data| ==> ShowsRaster(g, w, plan[i], data[i], raster)
    ensures Assembled(g, w, plan, data, prefill) == Crop(w, raster)
  {
    forall k | 0 <= k < |prefill| ensures Assembled(g, w, plan, data, prefill)[k] == raster(RowAt(w, k), ColAt(w, k)) {
      var i := WritingTile(g, w, plan, k);
      AssembledCell(g, w, plan, data, prefill, i, k);
    }
  }

  /** The one planned tile that stores the pixel at position `k`. */
  lemma WritingTile(g: Grid, w: Window, plan: seq<u32>, k: nat) returns (i: nat)
    requires g.WellFormed() && w.Inside(g) && IsPlan(g, w, Success(plan)) && k < w.height * w.width
    ensures w.Contains(RowAt(w, k), ColAt(w, k))
    ensures i < |plan| && plan[i] == g.TileOf(RowAt(w, k), ColAt(w, k))
    ensures forall j :: i < j < |plan| ==> plan[j] != plan[i]
  {
    PlanIsExact(g, w, plan);
    BufferCell(w, k);
    assert Meets(g, w, g.TileOf(RowAt(w, k), ColAt(w, k)));
    i :| 0 <= i < |plan| && plan[i] == g.TileOf(RowAt(w, k), ColAt(w, k));
  }

  /** Limits under which a window of an encoded raster is delivered. */
  predicate Deliverable(m: Metadata, w: Window, plan: seq<u32>, chunks: seq<seq<u8>>) {
    && m.grid.WellFormed() && w.Inside(m.grid) && Supported(m.sampleType, m.predictor)
    && ChunkBytes(m) <= MAX_DECODED_CHUNK_BYTES
    && m.sampleType.Width() * (w.height * w.width) <= MAX_WINDOW_ALLOCATION_BYTES
    && |chunks| == |plan| && TilesCovered(m, w, plan)
  }

  lemma {:induction false} AllTilesDecode(m: Metadata, fp: FloatCast, inflate: Inflate, w: Window, plan: seq<u32>,
                                          chunks: seq<seq<u8>>, n: nat)
    requires Deliverable(m, w, plan, chunks) && n <= |plan|
    requires forall i :: 0 <= i < |plan| ==> DecodedChunk(m, fp, inflate, chunks[i], plan[i]).Success?
    ensures DecodedTiles(m, fp, inflate, plan, chunks, n).Success?
  {
    if n > 0 {
      AllTilesDecode(m, fp, inflate, w, plan, chunks, n - 1);
    }
  }

  /** Pasting the clipped tiles of a raster, in plan order, leaves its crop. */
  lemma ClippedTilesAreCrop<T>(g: Grid, w: Window, plan: seq<u32>, data: seq<seq<T>>, prefill: seq<T>,
                               raster: (int, int) -> T)
    requires g.WellFormed() && w.Inside(g) && IsPlan(g, w, Success(plan)) && |data| == |plan|
    requires |prefill| == w.height * w.width
    requires forall i :: 0 <= i < |data| ==>
              TileFits(g, w, plan[i], data[i]) && plan[i] < g.TilesAcross() * g.TilesDown()
    requires forall i :: 0 <= i < |data| ==> data[i] == ClippedTile(g, raster, plan[i])
    ensures Assembled(g, w, plan, data, prefill) == Crop(w, raster)
  {
    forall i | 0 <= i < |data| ensures ShowsRaster(g, w, plan[i], data[i], raster) {
      ClippedTileShowsRaster(g, w, raster, plan[i]);
    }
    AssembledIsCrop(g, w, plan, data, prefill, raster);
  }

  /** An encoded byte tile decodes to its clipped samples. */
  lemma ByteChunkDecodes(m: Metadata, fp: FloatCast, inflate: Inflate, chunk: seq<u8>, raster: (int, int) -> u8,
                         index: nat)
    requires m.grid.WellFormed() && index < m.grid.TilesAcross() * m.grid.TilesDown()
    requires m.sampleType.Width() == 1 && Supported(m.sampleType, m.predictor)
    requires ChunkBytes(m) <= MAX_DECODED_CHUNK_BYTES
    requires inflate(chunk, ChunkBytes(m) + 1)
          == Some(EncodedBytes(m.predictor, PaddedTile(m.grid, raster, index), m.grid.tileWidth))
    ensures DecodedChunk(m, fp, inflate, chunk, index) == Success(Bytes8(ClippedTile(m.grid, raster, index)))
  {
    ChunkShape(m);
    BytePredictorRoundTrip(m.predictor, PaddedTile(m.grid, raster, index), m.grid.tileWidth);
  }

  /**
    A byte raster stored in tiles under any supported predictor, with any padding, is read
    back as its crop: whatever the raster, the tile size and the window inside the raster.
   */
  lemma ByteReassemblyIsCrop(m: Metadata, fp: FloatCast, inflate: Inflate, w: Window, plan: seq<u32>,
                             chunks: seq<seq<u8>>,
                             raster: (int, int) -> u8)
    requires m.grid.WellFormed() && w.Inside(m.grid) && IsPlan(m.grid, w, Success(plan))
    requires m.sampleType.Width() == 1 && Deliverable(m, w, plan, chunks) && DirectionNodataByte(m).Success?
    requires forall i :: 0 <= i < |plan| ==>
               inflate(chunks[i], ChunkBytes(m) + 1)
               == Some(EncodedBytes(m.predictor, PaddedTile(m.grid, raster, plan[i]), m.grid.tileWidth))
    ensures 0 <= w.height * w.width
    ensures DecodedWindow(m, fp, inflate, w, plan, chunks) == Success(WindowBytes(Crop(w, raster)))
  {
    AreaNonNegative(w);
    forall i | 0 <= i < |plan|
      ensures DecodedChunk(m, fp, inflate, chunks[i], plan[i]) == Success(Bytes8(ClippedTile(m.grid, raster, plan[i])))
    {
      ByteChunkDecodes(m, fp, inflate, chunks[i], raster, plan[i]);
    }
    AllTilesDecode(m, fp, inflate, w, plan, chunks, |plan|);
    var data := ByteTiles(DecodedTiles(m, fp, inflate, plan, chunks, |plan|).value);
    ClippedTilesAreCrop(m.grid, w, plan, data, Filled(w, DirectionNodataByte(m).value), raster);
  }

  /** A sample of a 32-bit raster as it is delivered. */
  function Delivered(m: Metadata, fp: FloatCast, word: u32): u32 {
    if m.sampleType.F32? then word else Normalized(fp, m.nodata.asI32, word)
  }

  lemma DeliveredWord(m: Metadata, fp: FloatCast, word: u32)
    requires m.sampleType.Width() == 4
    ensures DeliveredAs(m.sampleType, fp, m.nodata.asI32, word, Delivered(m, fp, word))
  {
    if !m.sampleType.F32? {
      ConvertedSample(fp, m.nodata.asI32, word);
    }
  }

  lemma CropShowsDelivered(m: Metadata, fp: FloatCast, w: Window, raster: (int, int) -> u32)
    requires m.sampleType.Width() == 4 && w.NonEmpty() && 0 <= w.height * w.width
    ensures ShowsDelivered(m, fp, w, Crop(w, (row, col) => Delivered(m, fp, raster(row, col))), raster)
  {
    var delivered := (row, col) => Delivered(m, fp, raster(row, col));
    CropShowsWindow(w, delivered);
    forall row, col | w.Contains(row, col)
      ensures DeliveredAs(m.sampleType, fp, m.nodata.asI32, raster(row, col), delivered(row, col))
    {
      DeliveredWord(m, fp, raster(row, col));
    }
  }

  /**
    A live sample of a decoded 32-bit tile is what is delivered for the word that the predictor
    leaves at its row and column.
   */
  lemma DecodedSample(m: Metadata, fp: FloatCast, inflate: Inflate, chunk: seq<u8>, index: nat, raw: seq<u8>,
                      r: nat, c: nat)
    requires m.grid.WellFormed() && index < m.grid.TilesAcross() * m.grid.TilesDown()
    requires m.sampleType.Width() == 4 && DecodedChunk(m, fp, inflate, chunk, index).Success?
    requires inflate(chunk, ChunkBytes(m) + 1) == Some(raw)
    requires r < LiveHeight(m.grid, index) && c < LiveWidth(m.grid, index)
    ensures |raw| % 4 == 0 && (|raw| / 4) % m.grid.tileWidth == 0
    ensures var words := DecodedWords(m.predictor, raw, m.grid.tileWidth);
            var bits := DecodedChunk(m, fp, inflate, chunk, index).value.bits;
            var at, k := r * m.grid.tileWidth + c, r * LiveWidth(m.grid, index) + c;
            && 0 <= at < |words| && 0 <= k < |bits|
            && DeliveredAs(m.sampleType, fp, m.nodata.asI32, words[at], bits[k])
  {
    ChunkShape(m);
    var words := DecodedWords(m.predictor, raw, m.grid.tileWidth);
    var k := r * LiveWidth(m.grid, index) + c;
    ClipBlock(words, m.grid.tileHeight, m.grid.tileWidth, LiveWidth(m.grid, index), LiveHeight(m.grid, index), r, c);
    DeliveredWord(m, fp, words[r * m.grid.tileWidth + c]);
  }

  /** The byte that stands for the declared nodata of a direction raster. */
  ghost predicate NodataByte(m: Metadata, b: u8) {
    if m.sampleType.U8? then m.nodata.asU8 == Some(b)
    else m.nodata.asI8.Some? && (m.nodata.asI8.value - b) % 0x100 == 0
  }

  lemma NodataIsByte(m: Metadata)
    requires m.sampleType.Width() == 1
    ensures DirectionNodataByte(m).Success? <==> exists b :: NodataByte(m, b)
    ensures DirectionNodataByte(m).Success? ==> NodataByte(m, DirectionNodataByte(m).value)
  {
    if DirectionNodataByte(m).Success? {
      assert NodataByte(m, DirectionNodataByte(m).value);
    }
  }

  /** A cell that no pasted tile stores shows the declared nodata, or NaN where none is declared. */
  lemma UnwrittenShowsNodata(m: Metadata, fp: FloatCast, inflate: Inflate, w: Window, tiles: seq<u32>,
                             chunks: seq<seq<u8>>, data: WindowData, k: nat)
    requires TilesCovered(m, w, tiles) && DecodedWindow(m, fp, inflate, w, tiles, chunks) == Success(data)
    requires w.NonEmpty() && k < w.height * w.width
    requires forall j :: 0 <= j < |tiles| && j < |chunks| ==> tiles[j] != m.grid.TileOf(RowAt(w, k), ColAt(w, k))
    ensures match data
            case WindowBytes(bytes) => k < |bytes| && NodataByte(m, bytes[k])
            case WindowFloats(bits) => k < |bits| && bits[k] == if m.nodata.asF32.Some? then m.nodata.asF32.value
                                                                else fp.nan
  {
    AreaNonNegative(w);
    var n := Min(|tiles|, |chunks|);
    var decoded := DecodedTiles(m, fp, inflate, tiles, chunks, n).value;
    match data
    case WindowBytes(_) =>
      NodataIsByte(m);
      UnwrittenCell(m.grid, w, tiles, ByteTiles(decoded), Filled(w, DirectionNodataByte(m).value), k);
    case WindowFloats(_) =>
      UnwrittenCell(m.grid, w, tiles, FloatTiles(decoded), Filled(w, FloatNodata(m, fp)), k);
  }

  /** Converting the clipped samples one by one is clipping the converted raster. */
  lemma ConvertedTile(g: Grid, fp: FloatCast, nodata: Option<int>, raster: (int, int) -> u32,
                      delivered: (int, int) -> u32, index: nat)
    requires g.WellFormed() && index < g.TilesAcross() * g.TilesDown()
    requires forall row, col :: delivered(row, col) == Normalized(fp, nodata, raster(row, col))
    ensures NormalizeAccumulation(fp, nodata, ClippedTile(g, raster, index)) == ClippedTile(g, delivered, index)
  {
    ConvertedPadding(g, fp, nodata, raster, delivered, index);
    ClipFits(g, index);
    var live, rows := LiveWidth(g, index), LiveHeight(g, index);
    forall k | 0 <= k < rows * live
      ensures 0 <= (k / live) * g.tileWidth + k % live < g.tileHeight * g.tileWidth
    {
      BlockShape(g.tileHeight, g.tileWidth);
      ClippedIndexInBounds(k, g.tileWidth, live, g.tileHeight);
    }
  }

  lemma ConvertedPadding(g: Grid, fp: FloatCast, nodata: Option<int>, raster: (int, int) -> u32,
                         delivered: (int, int) -> u32, index: nat)
    requires g.WellFormed()
    requires forall row, col :: delivered(row, col) == Normalized(fp, nodata, raster(row, col))
    ensures forall j :: 0 <= j < g.tileHeight * g.tileWidth ==>
              PaddedTile(g, delivered, index)[j] == Normalized(fp, nodata, PaddedTile(g, raster, index)[j])
  {
  }

  /** An encoded 32-bit tile decodes to its clipped samples, converted if they are integers. */
  lemma WordChunkDecodes(m: Metadata, fp: FloatCast, inflate: Inflate, chunk: seq<u8>, raster: (int, int) -> u32,
                         index: nat)
    requires m.grid.WellFormed() && index < m.grid.TilesAcross() * m.grid.TilesDown()
    requires m.sampleType.Width() == 4 && Supported(m.sampleType, m.predictor)
    requires ChunkBytes(m) <= MAX_DECODED_CHUNK_BYTES
    requires inflate(chunk, ChunkBytes(m) + 1)
          == Some(EncodedWords(m.predictor, PaddedTile(m.grid, raster, index), m.grid.tileWidth))
    ensures var clipped := ClippedTile(m.grid, raster, index);
            DecodedChunk(m, fp, inflate, chunk, index)
            == Success(Floats(if m.sampleType.F32? then clipped
                else NormalizeAccumulation(fp, m.nodata.asI32, clipped)))
  {
    ChunkShape(m);
    var padded := PaddedTile(m.grid, raster, index);
    WordPredictorRoundTrip(m.predictor, padded, EncodedWords(m.predictor, padded, m.grid.tileWidth), m.grid.tileWidth);
  }

  lemma DeliveredChunk(m: Metadata, fp: FloatCast, inflate: Inflate, chunk: seq<u8>, raster: (int, int) -> u32,
                       delivered: (int, int) -> u32, index: nat)
    requires m.grid.WellFormed() && index < m.grid.TilesAcross() * m.grid.TilesDown()
    requires m.sampleType.Width() == 4 && Supported(m.sampleType, m.predictor)
    requires ChunkBytes(m) <= MAX_DECODED_CHUNK_BYTES
    requires inflate(chunk, ChunkBytes(m) + 1)
          == Some(EncodedWords(m.predictor, PaddedTile(m.grid, raster, index), m.grid.tileWidth))
    requires forall row, col :: delivered(row, col) == Delivered(m, fp, raster(row, col))
    ensures DecodedChunk(m, fp, inflate, chunk, index) == Success(Floats(ClippedTile(m.grid, delivered, index)))
  {
    WordChunkDecodes(m, fp, inflate, chunk, raster, index);
    if m.sampleType.F32? {
      assert PaddedTile(m.grid, raster, index) == PaddedTile(m.grid, delivered, index);
    } else {
      ConvertedTile(m.grid, fp, m.nodata.asI32, raster, delivered, index);
    }
  }

  lemma WordsAssembleToCrop(m: Metadata, fp: FloatCast, inflate: Inflate, w: Window, plan: seq<u32>,
                            chunks: seq<seq<u8>>, raster: (int, int) -> u32)
    requires m.grid.WellFormed() && w.Inside(m.grid) && IsPlan(m.grid, w, Success(plan))
    requires m.sampleType.Width() == 4 && Deliverable(m, w, plan, chunks)
    requires forall i :: 0 <= i < |plan| ==>
               inflate(chunks[i], ChunkBytes(m) + 1)
               == Some(EncodedWords(m.predictor, PaddedTile(m.grid, raster, plan[i]), m.grid.tileWidth))
    ensures 0 <= w.height * w.width
    ensures DecodedWindow(m, fp, inflate, w, plan, chunks)
         == Success(WindowFloats(Crop(w, (row, col) => Delivered(m, fp, raster(row, col)))))
  {
    AreaNonNegative(w);
    var delivered := (row, col) => Delivered(m, fp, raster(row, col));
    forall i | 0 <= i < |plan|
      ensures DecodedChunk(m, fp, inflate, chunks[i], plan[i]) ==
          Success(Floats(ClippedTile(m.grid, delivered, plan[i])))
    {
      DeliveredChunk(m, fp, inflate, chunks[i], raster, delivered, plan[i]);
    }
    AllTilesDecode(m, fp, inflate, w, plan, chunks, |plan|);
    var data := FloatTiles(DecodedTiles(m, fp, inflate, plan, chunks, |plan|).value);
    ClippedTilesAreCrop(m.grid, w, plan, data, Filled(w, FloatNodata(m, fp)), delivered);
  }

  /**
    The same for rasters of 32-bit floats and integers under all their predictors: the crop,
    delivered bit for bit for floats, converted sample by sample for integers.
   */
  lemma WordReassemblyIsCrop(m: Metadata, fp: FloatCast, inflate: Inflate, w: Window, plan: seq<u32>,
                             chunks: seq<seq<u8>>, raster: (int, int) -> u32)
    requires m.grid.WellFormed() && w.Inside(m.grid) && IsPlan(m.grid, w, Success(plan))
    requires m.sampleType.Width() == 4 && Deliverable(m, w, plan, chunks)
    requires forall i :: 0 <= i < |plan| ==>
               inflate(chunks[i], ChunkBytes(m) + 1)
               == Some(EncodedWords(m.predictor, PaddedTile(m.grid, raster, plan[i]), m.grid.tileWidth))
    ensures 0 <= w.height * w.width
    ensures DecodedWindow(m, fp, inflate, w, plan, chunks)
         == Success(WindowFloats(Crop(w, (row, col) => Delivered(m, fp, raster(row, col)))))
    ensures ShowsDelivered(m, fp, w, DecodedWindow(m, fp, inflate, w, plan, chunks).value.bits, raster)
  {
    WordsAssembleToCrop(m, fp, inflate, w, plan, chunks, raster);
    CropShowsDelivered(m, fp, w, raster);
  }

  // ---- Writing and reading back -------------------------------------------------------

  /** The planned tiles of a raster as a writer that does not compress would store them. */
  function StoredByteTiles(m: Metadata, plan: seq<u32>, raster: (int, int) -> u8): (chunks: seq<seq<u8>>)
    requires m.grid.WellFormed()
    ensures |chunks| == |plan|
  {
    seq(|plan|, i requires 0 <= i < |plan| =>
        EncodedBytes(m.predictor, PaddedTile(m.grid, raster, plan[i]), m.grid.tileWidth))
  }

  function StoredWordTiles(m: Metadata, plan: seq<u32>, raster: (int, int) -> u32): (chunks: seq<seq<u8>>)
    requires m.grid.WellFormed()
    ensures |chunks| == |plan|
  {
    seq(|plan|, i requires 0 <= i < |plan| =>
        EncodedWords(m.predictor, PaddedTile(m.grid, raster, plan[i]), m.grid.tileWidth))
  }

  /** Limits on the sizes alone, which a caller can check before anything is read. */
  predicate WithinLimits(m: Metadata, w: Window)
    requires m.grid.WellFormed()
  {
    && ChunkBytes(m) <= MAX_DECODED_CHUNK_BYTES
    && m.sampleType.Width() * (w.height * w.width) <= MAX_WINDOW_ALLOCATION_BYTES
  }

  /** Reading what such a writer wrote gives the crop, for every raster and every window it can plan. */
  lemma WrittenTilesAreRead(m: Metadata, fp: FloatCast, w: Window, plan: seq<u32>, bytes: (int, int) -> u8,
                            words: (int, int) -> u32)
    requires m.grid.WellFormed() && w.Inside(m.grid) && IsPlan(m.grid, w, Success(plan))
    requires Supported(m.sampleType, m.predictor) && WithinLimits(m, w)
    ensures 0 <= w.height * w.width && TilesCovered(m, w, plan)
    ensures m.sampleType.Width() == 1 && DirectionNodataByte(m).Success? ==>
              DecodedWindow(m, fp, (chunk, _) => Some(chunk), w, plan, StoredByteTiles(m, plan, bytes)) ==
                  Success(WindowBytes(Crop(w, bytes)))
    ensures m.sampleType.Width() == 4 ==>
              DecodedWindow(m, fp, (chunk, _) => Some(chunk), w, plan, StoredWordTiles(m, plan, words))
              == Success(WindowFloats(Crop(w, (row, col) => Delivered(m, fp, words(row, col)))))
  {
    AreaNonNegative(w);
    PlannedTilesAreCovered(m, w, plan);
    if m.sampleType.Width() == 1 {
      if DirectionNodataByte(m).Success? {
        ByteReassemblyIsCrop(m, fp, (chunk, _) => Some(chunk), w, plan, StoredByteTiles(m, plan, bytes), bytes);
      }
    } else {
      WordReassemblyIsCrop(m, fp, (chunk, _) => Some(chunk), w, plan, StoredWordTiles(m, plan, words), words);
    }
  }

  lemma PlannedTilesAreCovered(m: Metadata, w: Window, plan: seq<u32>)
    requires m.grid.WellFormed() && w.Inside(m.grid) && IsPlan(m.grid, w, Success(plan))
    ensures TilesCovered(m, w, plan)
  {
    PlanIsExact(m.grid, w, plan);
    forall k | 0 <= k < |plan| ensures Covered(m.grid, w, plan[k]) {
      MeetsIffInSpan(m.grid, w, plan[k]);
    }
  }
}
