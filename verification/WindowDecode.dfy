/**
  From one compressed tile to its samples: inflate it, undo its predictor in place, and clip
  it to the raster.

  Samples of 32-bit floating-point tiles are their bit patterns.  Inflation, parsing of the
  declared nodata text and the rounding conversion of an `i32` to an `f32` are parameters.
 */
module WindowDecode {
  import opened Prelude
  import opened TileGrid
  import opened Predictors

  const MAX_DECODED_CHUNK_BYTES: int := 8_388_608
  const MAX_WINDOW_ALLOCATION_BYTES: int := 1_073_741_824

  datatype SampleType = U8 | I8 | F32 | I32 {
    function Width(): (n: nat)
      ensures n == 1 || n == 4
    {
      if U8? || I8? then 1 else 4
    }
  }

  type i8 = x: int | -0x80 <= x < 0x80

  /** The declared nodata text, as each numeric type parses it. */
  datatype Nodata = Nodata(asU8: Option<u8>, asI8: Option<i8>, asI32: Option<int>, asF32: Option<u32>)

  datatype Metadata = Metadata(grid: Grid, sampleType: SampleType, predictor: u16, nodata: Nodata)

  /** Rounding conversion from `i32`, and the NaN bit pattern. */
  datatype FloatCast = FloatCast(fromI32: int -> u32, nan: u32)

  /** What a reader bounded to `limit` bytes inflates out of a chunk; `None` when the stream is corrupt. */
  type Inflate = (seq<u8>, nat) -> Option<seq<u8>>

  datatype TileData = Bytes8(bytes: seq<u8>) | Floats(bits: seq<u32>) {
    function Count(): nat {
      if Bytes8? then |bytes| else |bits|
    }
  }

  datatype DecodeError =
    | DecodedChunkTooLarge
    | DeflateFailed
    | WrongDecodedLength
    | UnsupportedPredictor
    | NodataNotRepresentable
    | WindowTooLarge

  // ---- Samples of one padded tile -----------------------------------------------------

  predicate Supported(t: SampleType, predictor: u16) {
    predictor == 1 || (predictor == 2 && !t.F32?) || (predictor == 3 && t.F32?)
  }

  function DecodedBytes(predictor: u16, raw: seq<u8>, n: nat): (s: seq<u8>)
    requires n > 0
    ensures |s| == |raw|
  {
    if predictor == 2 then SumRows(raw, n) else raw
  }

  function EncodedBytes(predictor: u16, samples: seq<u8>, n: nat): seq<u8>
    requires n > 0
  {
    if predictor == 2 then DiffRows(samples, n) else samples
  }

  function DecodedWords(predictor: u16, raw: seq<u8>, n: nat): (w: seq<u32>)
    requires n > 0 && |raw| % 4 == 0 && (|raw| / 4) % n == 0
    ensures |w| == |raw| / 4
  {
    if predictor == 2 then SumWordRows(Words(raw), n)
    else if predictor == 3 then FromPlanes(SumRows(raw, 4 * n), n)
    else Words(raw)
  }

  function EncodedWords(predictor: u16, samples: seq<u32>, n: nat): (raw: seq<u8>)
    requires n > 0 && |samples| % n == 0
    ensures |raw| == 4 * |samples|
  {
    if predictor == 2 then Bytes(DiffWordRows(samples, n))
    else if predictor == 3 then DiffRows(Planes(samples, n), 4 * n)
    else Bytes(samples)
  }

  /** Every byte predictor is decoded to exactly what was encoded, and encodes back to the same bytes. */
  lemma BytePredictorRoundTrip(predictor: u16, samples: seq<u8>, n: nat)
    requires n > 0
    ensures DecodedBytes(predictor, EncodedBytes(predictor, samples, n), n) == samples
    ensures EncodedBytes(predictor, DecodedBytes(predictor, samples, n), n) == samples
  {
    ByteDifferencingInverse(samples, n);
  }

  /** Every 32-bit predictor is decoded to exactly what was encoded, and encodes back to the same bytes. */
  lemma WordPredictorRoundTrip(predictor: u16, samples: seq<u32>, raw: seq<u8>, n: nat)
    requires n > 0 && |samples| % n == 0
    requires |raw| % 4 == 0 && (|raw| / 4) % n == 0
    ensures DecodedWords(predictor, EncodedWords(predictor, samples, n), n) == samples
    ensures EncodedWords(predictor, DecodedWords(predictor, raw, n), n) == raw
  {
    if predictor == 2 {
      WordDifferencingInverse(samples, n);
      WordDifferencingInverse(Words(raw), n);
      WordsOfBytes(DiffWordRows(samples, n));
      BytesOfWords(raw);
    } else if predictor == 3 {
      ByteDifferencingInverse(Planes(samples, n), 4 * n);
      ByteDifferencingInverse(raw, 4 * n);
      PlanesInverse(samples, SumRows(raw, 4 * n), n);
    } else {
      WordsOfBytes(samples);
      BytesOfWords(raw);
    }
  }

  function Signed(w: u32): int {
    if w < 0x8000_0000 then w else w - WORD
  }

  /** An accumulation sample as delivered: nodata becomes NaN, everything else is converted. */
  function Normalized(fp: FloatCast, nodata: Option<int>, w: u32): u32 {
    if nodata == Some(Signed(w)) then fp.nan else fp.fromI32(Signed(w))
  }

  /** `v` is the 32-bit two's-complement number that the word spells. */
  predicate Spells(w: u32, v: int) {
    -0x8000_0000 <= v < 0x8000_0000 && (v - w) % WORD == 0
  }

  lemma SpellsOne(w: u32, v: int)
    ensures Spells(w, v) <==> v == Signed(w)
  {
    if Spells(w, v) {
      assert v - w == 0 || v - w == -WORD;
    }
  }

  /**
    What is delivered for a stored word: floats bit for bit; of integers the float of the number
    that the word spells, and NaN where that number is the declared nodata.
   */
  ghost predicate DeliveredAs(t: SampleType, fp: FloatCast, nodata: Option<int>, w: u32, out: u32) {
    if t.F32? then out == w
    else exists v :: Spells(w, v) && out == if nodata == Some(v) then fp.nan else fp.fromI32(v)
  }

  lemma ConvertedSample(fp: FloatCast, nodata: Option<int>, w: u32)
    ensures DeliveredAs(I32, fp, nodata, w, Normalized(fp, nodata, w))
  {
    SpellsOne(w, Signed(w));
  }

  /** What is delivered is determined by the word. */
  lemma DeliveredUnique(t: SampleType, fp: FloatCast, nodata: Option<int>, w: u32, a: u32, b: u32)
    requires DeliveredAs(t, fp, nodata, w, a) && DeliveredAs(t, fp, nodata, w, b)
    ensures a == b
  {
    if !t.F32? {
      var v :| Spells(w, v) && a == if nodata == Some(v) then fp.nan else fp.fromI32(v);
      var u :| Spells(w, u) && b == if nodata == Some(u) then fp.nan else fp.fromI32(u);
      SpellsOne(w, v);
      SpellsOne(w, u);
    }
  }

  // ---- Clipping -----------------------------------------------------------------------

  /** The first `live` columns of rows of `n` samples, flattened: the first `count` of them. */
  function Clip<T>(samples: seq<T>, n: nat, live: nat, count: nat): (c: seq<T>)
    requires 0 < live <= n && |samples| % n == 0 && count <= (|samples| / n) * live
    ensures |c| == count
  {
    seq(count, k requires 0 <= k < count => ClippedIndexInBounds(k, n, live, |samples| / n);
        samples[(k / live) * n + k % live])
  }

  lemma ClippedIndexInBounds(k: nat, n: nat, live: nat, rows: nat)
    requires 0 < live <= n && k < rows * live
    ensures 0 <= (k / live) * n + k % live < rows * n
  {
    CellOf(k, live, rows);
    CellInBounds(k / live, k % live, n, rows);
  }

  /** Clipping proceeds row by row. */
  lemma ClipRow<T>(samples: seq<T>, n: nat, live: nat, row: nat, col: nat)
    requires 0 < live <= n && |samples| % n == 0 && row < |samples| / n && col <= live
    ensures 0 <= row * live && row * live + col <= (|samples| / n) * live
    ensures 0 <= row * n && row * n + n <= |samples|
    ensures (row + 1) * live == row * live + live
    ensures Clip(samples, n, live, row * live + col) ==
        Clip(samples, n, live, row * live) + samples[row * n..row * n + col]
  {
    RowFits(row, |samples| / n, live);
    RowFits(row, |samples| / n, n);
    forall k | row * live <= k < row * live + col
      ensures (k / live) * n + k % live == row * n + (k - row * live)
    {
      DivModUnique(k, row, k - row * live, live);
    }
  }

  /** Live (not padded) size of a tile. */
  function LiveWidth(g: Grid, index: nat): (n: u32)
    requires g.WellFormed() && index < g.TilesAcross() * g.TilesDown()
    ensures 0 < n <= g.tileWidth
  {
    TileInGrid(g, index);
    Min(g.tileWidth, g.width - (index % g.TilesAcross()) * g.tileWidth)
  }

  function LiveHeight(g: Grid, index: nat): (n: u32)
    requires g.WellFormed() && index < g.TilesAcross() * g.TilesDown()
    ensures 0 < n <= g.tileHeight
  {
    TileInGrid(g, index);
    Min(g.tileHeight, g.height - (index / g.TilesAcross()) * g.tileHeight)
  }

  lemma TileInGrid(g: Grid, index: nat)
    requires g.WellFormed() && index < g.TilesAcross() * g.TilesDown()
    ensures 0 <= index % g.TilesAcross() < g.TilesAcross()
    ensures 0 <= index / g.TilesAcross() < g.TilesDown()
    ensures 0 <= (index % g.TilesAcross()) * g.tileWidth < g.width
    ensures 0 <= (index / g.TilesAcross()) * g.tileHeight < g.height
  {
    CellOf(index, g.TilesAcross(), g.TilesDown());
    StartsInside(index % g.TilesAcross(), g.TilesAcross(), g.tileWidth, g.width);
    StartsInside(index / g.TilesAcross(), g.TilesDown(), g.tileHeight, g.height);
  }

  lemma StartsInside(tile: nat, tiles: nat, size: nat, extent: nat)
    requires tile < tiles && (tiles - 1) * size < extent
    ensures 0 <= tile * size < extent
  {
    MulMono(0, tile, size);
    MulMono(tile, tiles - 1, size);
  }

  // ---- One tile -----------------------------------------------------------------------

  function ChunkBytes(m: Metadata): nat
    requires m.grid.WellFormed()
  {
    MulMono(0, m.grid.tileWidth, m.grid.tileHeight);
    m.grid.tileWidth * m.grid.tileHeight * m.sampleType.Width()
  }

  /** A block of `rows` rows of `n` items. */
  lemma BlockShape(rows: nat, n: nat)
    requires n > 0
    ensures 0 <= rows * n && (rows * n) % n == 0 && (rows * n) / n == rows
    ensures rows * (4 * n) == 4 * (rows * n)
  {
    MulMono(0, rows, n);
    DivModUnique(rows * n, rows, 0, n);
  }

  /** An inflated tile is `tileHeight` rows of `tileWidth` samples. */
  lemma ChunkShape(m: Metadata)
    requires m.grid.WellFormed()
    ensures var rows, n, len := m.grid.tileHeight, m.grid.tileWidth, ChunkBytes(m);
            && (m.sampleType.Width() == 1 ==> len == rows * n && len % n == 0 && len / n == rows)
            && (m.sampleType.Width() == 4 ==>
                && len % 4 == 0 && len / 4 == rows * n && (len / 4) % n == 0 && (len / 4) / n == rows
                && len % (4 * n) == 0)
  {
    BlockShape(m.grid.tileHeight, m.grid.tileWidth);
    BlockShape(m.grid.tileHeight, 4 * m.grid.tileWidth);
  }

  /** The live samples of a tile, as delivered, out of its inflated bytes. */
  function TileSamples(m: Metadata, fp: FloatCast, raw: seq<u8>, index: nat): TileData
    requires m.grid.WellFormed() && index < m.grid.TilesAcross() * m.grid.TilesDown()
    requires |raw| == ChunkBytes(m)
  {
    ChunkShape(m);
    var n, live := m.grid.tileWidth, LiveWidth(m.grid, index);
    MulMono(LiveHeight(m.grid, index), m.grid.tileHeight, live);
    MulMono(0, LiveHeight(m.grid, index), live);
    var count := LiveHeight(m.grid, index) * live;
    if m.sampleType.Width() == 1 then
      Bytes8(Clip(DecodedBytes(m.predictor, raw, n), n, live, count))
    else
      var words := Clip(DecodedWords(m.predictor, raw, n), n, live, count);
      if m.sampleType.F32? then Floats(words)
      else Floats(NormalizeAccumulation(fp, m.nodata.asI32, words))
  }

  function DecodedChunk(m: Metadata, fp: FloatCast, inflate: Inflate, chunk: seq<u8>, index: nat)
    : (r: Result<TileData, DecodeError>)
    requires m.grid.WellFormed() && index < m.grid.TilesAcross() * m.grid.TilesDown()
    ensures r.Success? ==> (r.value.Bytes8? <==> m.sampleType.Width() == 1)
    ensures r.Success? ==> r.value.Count() == LiveHeight(m.grid, index) * LiveWidth(m.grid, index)
  {
    if ChunkBytes(m) > MAX_DECODED_CHUNK_BYTES then Failure(DecodedChunkTooLarge)
    else
      match inflate(chunk, ChunkBytes(m) + 1)
      case None => Failure(DeflateFailed)
      case Some(raw) =>
        if |raw| != ChunkBytes(m) then Failure(WrongDecodedLength)
        else if !Supported(m.sampleType, m.predictor) then Failure(UnsupportedPredictor)
        else Success(TileSamples(m, fp, raw, index))
  }

  /** Copy out the live prefix of each of the first `rows` rows. */
  method ClipBytes(a: array<u8>, n: nat, live: nat, rows: nat) returns (clipped: seq<u8>)
    requires 0 < live <= n && a.Length % n == 0 && rows <= a.Length / n
    ensures 0 <= rows * live <= (a.Length / n) * live
    ensures clipped == Clip(a[..], n, live, rows * live)
  {
    MulMono(0, rows, live);
    MulMono(rows, a.Length / n, live);
    clipped := [];
    var start := 0;
    for row := 0 to rows
      invariant start == row * n
      invariant 0 <= row * live <= (a.Length / n) * live
      invariant clipped == Clip(a[..], n, live, row * live)
    {
      ClipRow(a[..], n, live, row, live);
      RowFits(row, rows, live);
      clipped := clipped + a[start..start + live];
      start := start + n;
    }
  }

  /** Read the live words of each row, little-endian. */
  method ClipWords(a: array<u8>, n: nat, live: nat, rows: nat) returns (clipped: seq<u32>)
    requires 0 < live <= n && a.Length % 4 == 0 && (a.Length / 4) % n == 0 && rows <= (a.Length / 4) / n
    ensures 0 <= rows * live <= ((a.Length / 4) / n) * live
    ensures clipped == Clip(Words(a[..]), n, live, rows * live)
  {
    ghost var words := Words(a[..]);
    MulMono(0, rows, live);
    MulMono(rows, |words| / n, live);
    clipped := [];
    var start := 0;
    for row := 0 to rows
      invariant start == row * n
      invariant 0 <= row * live <= (|words| / n) * live
      invariant clipped == Clip(words, n, live, row * live)
    {
      ClipRow(words, n, live, row, live);
      for column := 0 to live
        invariant clipped == Clip(words, n, live, row * live) + words[start..start + column]
      {
        var word := LoadLe(a, start + column);
        clipped := clipped + [word];
      }
      start := start + n;
    }
  }

  /** Gather the live words of each row from its four byte planes, at the padded stride. */
  method ClipPlanes(a: array<u8>, n: nat, live: nat, rows: nat) returns (clipped: seq<u32>)
    requires 0 < live <= n && a.Length % 4 == 0 && (a.Length / 4) % n == 0 && rows <= (a.Length / 4) / n
    ensures 0 <= rows * live <= ((a.Length / 4) / n) * live
    ensures clipped == Clip(FromPlanes(a[..], n), n, live, rows * live)
  {
    ghost var words := FromPlanes(a[..], n);
    MulMono(0, rows, live);
    MulMono(rows, |words| / n, live);
    clipped := [];
    var start := 0;
    for row := 0 to rows
      invariant start == row * n
      invariant 0 <= row * live <= (|words| / n) * live
      invariant clipped == Clip(words, n, live, row * live)
    {
      ClipRow(words, n, live, row, live);
      var gathered := GatherRow(a, n, row, start, live);
      clipped := clipped + gathered;
      start := start + n;
    }
  }

  /** The live words of the row that starts at word `start`. */
  method GatherRow(a: array<u8>, n: nat, ghost row: nat, start: nat, live: nat) returns (gathered: seq<u32>)
    requires 0 < live <= n && a.Length % 4 == 0 && (a.Length / 4) % n == 0
    requires start == row * n && start + n <= a.Length / 4
    ensures gathered == FromPlanes(a[..], n)[start..start + live]
  {
    forall column: nat | column < n ensures PlaneWordAt(a[..], FromPlanes(a[..], n), n, start, column) {
      GatherAt(a[..], row, start, column, n);
    }
    gathered := GatherWords(a, n, start, live, FromPlanes(a[..], n));
  }

  /** The word of a column stands in the four planes of its row. */
  predicate PlaneWordAt(b: seq<u8>, words: seq<u32>, n: nat, start: nat, column: nat) {
    && 4 * start + 3 * n + column < |b| && column < n && start + column < |words|
    && words[start + column] ==
         0x100_0000 * (b[4 * start + column] as int) + 0x1_0000 * (b[4 * start + n + column] as int)
         + 0x100 * (b[4 * start + 2 * n + column] as int) + b[4 * start + 3 * n + column] as int
  }

  method GatherWords(a: array<u8>, n: nat, start: nat, live: nat, ghost words: seq<u32>) returns (gathered: seq<u32>)
    requires live <= n && start + n <= |words|
    requires forall column: nat :: column < n ==> PlaneWordAt(a[..], words, n, start, column)
    ensures gathered == words[start..start + live]
  {
    gathered := [];
    var rowStart := 4 * start;
    for column := 0 to live
      invariant gathered == words[start..start + column]
    {
      assert PlaneWordAt(a[..], words, n, start, column);
      var bits := FromBe(a[rowStart + column], a[rowStart + n + column], a[rowStart + 2 * n + column],
          a[rowStart + 3 * n + column]);
      gathered := gathered + [bits];
    }
  }

  lemma GatherAt(b: seq<u8>, row: nat, start: nat, column: nat, n: nat)
    requires column < n && |b| % 4 == 0 && (|b| / 4) % n == 0 && start == row * n && start + n <= |b| / 4
    ensures PlaneWordAt(b, FromPlanes(b, n), n, start, column)
  {
    RowPosition(row, column, n);
    GatherInRow(b, start, column, n);
  }

  lemma GatherInRow(b: seq<u8>, start: nat, column: nat, n: nat)
    requires column < n && |b| % 4 == 0 && (|b| / 4) % n == 0 && start + n <= |b| / 4
    requires RowStart(start + column, n) == start
    ensures PlaneWordAt(b, FromPlanes(b, n), n, start, column)
  {
    RowPlanes(start + column, n, start);
    WordOfPlanes(b, n, start + column, 4 * start + column, 4 * start + n + column, 4 * start + 2 * n + column,
                 4 * start + 3 * n + column);
  }

  lemma RowPlanes(k: nat, n: nat, start: nat)
    requires n > 0 && RowStart(k, n) == start
    ensures PlanePosition(k, n, 0) == 4 * start + (k - start)
    ensures PlanePosition(k, n, 1) == 4 * start + n + (k - start)
    ensures PlanePosition(k, n, 2) == 4 * start + 2 * n + (k - start)
    ensures PlanePosition(k, n, 3) == 4 * start + 3 * n + (k - start)
  {
  }

  lemma WordOfPlanes(b: seq<u8>, n: nat, k: nat, p0: nat, p1: nat, p2: nat, p3: nat)
    requires n > 0 && |b| % 4 == 0 && (|b| / 4) % n == 0 && k < |b| / 4
    requires p0 == PlanePosition(k, n, 0) && p1 == PlanePosition(k, n, 1)
    requires p2 == PlanePosition(k, n, 2) && p3 == PlanePosition(k, n, 3)
    ensures p0 < |b| && p1 < |b| && p2 < |b| && p3 < |b|
    ensures FromPlanes(b, n)[k] == 0x100_0000 * (b[p0] as int) + 0x1_0000 * (b[p1] as int)
                                   + 0x100 * (b[p2] as int) + b[p3] as int
  {
    PlanePositionFacts(k, n, 0, |b| / 4);
    PlanePositionFacts(k, n, 1, |b| / 4);
    PlanePositionFacts(k, n, 2, |b| / 4);
    PlanePositionFacts(k, n, 3, |b| / 4);
    assert FromPlanes(b, n)[k] == GatherWord(b, n, k);
  }

  function NormalizeAccumulation(fp: FloatCast, nodata: Option<int>, values: seq<u32>): seq<u32> {
    seq(|values|, k requires 0 <= k < |values| => Normalized(fp, nodata, values[k]))
  }

  /** Undo the predictor of an inflated tile in place. */
  method UndoPredictor(a: array<u8>, m: Metadata)
    requires m.grid.WellFormed() && a.Length == ChunkBytes(m) && Supported(m.sampleType, m.predictor)
    modifies a
    ensures (a.Length / 4) % m.grid.tileWidth == 0 || m.sampleType.Width() == 1
    ensures m.sampleType.Width() == 1 ==> a[..] == DecodedBytes(m.predictor, old(a[..]), m.grid.tileWidth)
    ensures m.sampleType.Width() == 4 && m.predictor != 3 ==>
              a.Length % 4 == 0 && Words(a[..]) == DecodedWords(m.predictor, old(a[..]), m.grid.tileWidth)
    ensures m.sampleType.Width() == 4 && m.predictor == 3 ==> a[..] == SumRows(old(a[..]), 4 * m.grid.tileWidth)
  {
    ChunkShape(m);
    if m.predictor == 2 && m.sampleType.Width() == 1 {
      UndoByteDifferences(a, m.grid.tileWidth);
    } else if m.predictor == 2 {
      UndoWordDifferences(a, m.grid.tileWidth);
    } else if m.predictor == 3 {
      UndoByteDifferences(a, 4 * m.grid.tileWidth);
    }
  }

  /** Inflate one chunk, check its length, undo the predictor and clip it to the raster. */
  method DecodeOwnedChunk(chunk: seq<u8>, m: Metadata, fp: FloatCast, inflate: Inflate, index: u32)
    returns (r: Result<TileData, DecodeError>)
    requires m.grid.WellFormed() && index < m.grid.TilesAcross() * m.grid.TilesDown()
    ensures r == DecodedChunk(m, fp, inflate, chunk, index)
  {
    var expected := ChunkBytes(m);
    if expected > MAX_DECODED_CHUNK_BYTES {
      return Failure(DecodedChunkTooLarge);
    }
    var inflated := inflate(chunk, expected + 1);
    if inflated.None? {
      return Failure(DeflateFailed);
    }
    var raw := inflated.value;
    if |raw| != expected {
      return Failure(WrongDecodedLength);
    }
    var supported := match m.sampleType
      case F32 => m.predictor == 1 || m.predictor == 3
      case _ => m.predictor == 1 || m.predictor == 2;
    if !supported {
      return Failure(UnsupportedPredictor);
    }
    var a := new u8[|raw|](i requires 0 <= i < |raw| => raw[i]);
    assert a[..] == raw;
    UndoPredictor(a, m);
    var data := ClipTile(a, m, fp, index, raw);
    return Success(data);
  }

  /** Clip an inflated tile whose predictor has been undone, gathering byte planes on the way. */
  method ClipTile(a: array<u8>, m: Metadata, fp: FloatCast, index: u32, ghost raw: seq<u8>) returns (data: TileData)
    requires m.grid.WellFormed() && index < m.grid.TilesAcross() * m.grid.TilesDown()
    requires a.Length == |raw| == ChunkBytes(m) && Supported(m.sampleType, m.predictor)
    requires (|raw| / 4) % m.grid.tileWidth == 0 || m.sampleType.Width() == 1
    requires m.sampleType.Width() == 1 ==> a[..] == DecodedBytes(m.predictor, raw, m.grid.tileWidth)
    requires m.sampleType.Width() == 4 && m.predictor != 3 ==>
               |raw| % 4 == 0 && Words(a[..]) == DecodedWords(m.predictor, raw, m.grid.tileWidth)
    requires m.sampleType.Width() == 4 && m.predictor == 3 ==> a[..] == SumRows(raw, 4 * m.grid.tileWidth)
    ensures data == TileSamples(m, fp, raw, index)
  {
    ChunkShape(m);
    var live, rows := LiveWidth(m.grid, index), LiveHeight(m.grid, index);
    if m.sampleType.Width() == 1 {
      var clipped := ClipBytes(a, m.grid.tileWidth, live, rows);
      return Bytes8(clipped);
    }
    var words;
    if m.predictor == 3 {
      words := ClipPlanes(a, m.grid.tileWidth, live, rows);
    } else {
      words := ClipWords(a, m.grid.tileWidth, live, rows);
    }
    if m.sampleType.F32? {
      return Floats(words);
    }
    return Floats(NormalizeAccumulation(fp, m.nodata.asI32, words));
  }
}
