/**
  From the bytes of an object and a bounding box to the crop: what a whole read gives of a
  raster stored in a file, in the file's own terms.  The raster's dimensions, samples, place and
  index arrays are those that the entries of the file's directory spell.
 */
module StoredRaster {
  import opened Prelude
  import opened TileGrid
  import opened WindowDecode
  import opened WindowAssembly
  import opened TiffDirectory
  import opened TileIndex
  import opened RemoteLayout
  import opened BoxWindow
  import opened RemoteWindow
  import opened PreparedWindow

  // ---- What a directory says of its raster --------------------------------------------

  /** Dimensions and samples, nodata text, transform, and the entries of the two index arrays. */
  datatype Header = Header(grid: Grid, sampleType: SampleType, predictor: u16, nodata: Option<seq<u8>>,
                           transform: Transform, offsets: Entry, counts: Entry) {
    /** Bytes of one whole tile. */
    function TileBytes(): nat {
      MulMono(0, grid.tileWidth, grid.tileHeight);
      grid.tileWidth * grid.tileHeight * sampleType.Width()
    }
  }

  /**
    The transform that the file declares: pixels of the first two numbers of tag 33550, rows
    running south, and the raster position of the tie point in tag 33922 mapped to its model
    position.
   */
  ghost predicate Georeferences(content: seq<u8>, es: seq<Entry>, double: u64 -> real, t: Transform) {
    && FindEntry(es, 33550).Some? && FindEntry(es, 33922).Some?
    && var scale, tiepoint := FindEntry(es, 33550).value, FindEntry(es, 33922).value;
       && scale.value + 24 <= |content| && tiepoint.value + 48 <= |content|
       && t.pixelWidth == double(DoubleAt(content, scale, 0)) && -t.pixelHeight == double(DoubleAt(content, scale, 1))
       && var i, j := double(DoubleAt(content, tiepoint, 0)), double(DoubleAt(content, tiepoint, 1));
          && t.originX + i * t.pixelWidth == double(DoubleAt(content, tiepoint, 3))
          && t.originY + j * t.pixelHeight == double(DoubleAt(content, tiepoint, 4))
  }

  ghost predicate HoldsHeader(content: seq<u8>, f: Format, es: seq<Entry>, reading: Reading, h: Header) {
    && Spelled(f, es, 256, h.grid.width) && Spelled(f, es, 257, h.grid.height)
    && Spelled(f, es, 322, h.grid.tileWidth) && Spelled(f, es, 323, h.grid.tileHeight)
    && Spelled(f, es, 258, 8 * h.sampleType.Width()) && Spelled(f, es, 339, SampleFormat(h.sampleType))
    && Spelled(f, es, 317, h.predictor)
    && HoldsText(content, f, es, 42113, reading.isUtf8, h.nodata)
    && Georeferences(content, es, reading.double, h.transform)
    && IndexEntries(es, h.offsets, h.counts)
  }

  /** The file starts with a directory that says this of its raster. */
  ghost predicate HoldsRaster(content: seq<u8>, f: Format, at: u64, es: seq<Entry>, reading: Reading, h: Header) {
    && Acceptable(f, es) && HoldsDirectory(content, f, at, es) && HoldsHeader(content, f, es, reading, h)
  }

  function MetadataIn(h: Header, reading: Reading): Metadata {
    Metadata(h.grid, h.sampleType, h.predictor, reading.nodata(h.nodata, h.sampleType))
  }

  lemma SpelledOnce(f: Format, es: seq<Entry>, tag: u16, v: u64, v': u64)
    requires Spelled(f, es, tag, v) && Spelled(f, es, tag, v')
    ensures v == v'
  {
  }

  lemma GridOfLayout(f: Format, es: seq<Entry>, size: nat, l: Layout, g: Grid)
    requires EntriesSay(f, es, size, l)
    requires Spelled(f, es, 256, g.width) && Spelled(f, es, 257, g.height)
    requires Spelled(f, es, 322, g.tileWidth) && Spelled(f, es, 323, g.tileHeight)
    ensures l.width == g.width && l.height == g.height && l.tileWidth == g.tileWidth && l.tileHeight == g.tileHeight
  {
    SpelledTwo(f, es, 256, 257, l.width, l.height);
    SpelledFour(f, es, 322, 323, 259, 317, l.tileWidth, l.tileHeight, l.compression, l.predictor);
    SpelledOnce(f, es, 256, l.width, g.width);
    SpelledOnce(f, es, 257, l.height, g.height);
    SpelledOnce(f, es, 322, l.tileWidth, g.tileWidth);
    SpelledOnce(f, es, 323, l.tileHeight, g.tileHeight);
  }

  lemma SamplesOfLayout(f: Format, es: seq<Entry>, size: nat, l: Layout, t: SampleType, predictor: u16)
    requires EntriesSay(f, es, size, l) && Spelled(f, es, 317, predictor)
    requires Spelled(f, es, 258, 8 * t.Width()) && Spelled(f, es, 339, SampleFormat(t))
    ensures l.sampleType == t && l.predictor == predictor
  {
    SpelledTwo(f, es, 258, 339, 8 * l.sampleType.Width(), SampleFormat(l.sampleType));
    SpelledFour(f, es, 322, 323, 259, 317, l.tileWidth, l.tileHeight, l.compression, l.predictor);
    SpelledOnce(f, es, 258, 8 * l.sampleType.Width(), 8 * t.Width());
    SpelledOnce(f, es, 339, SampleFormat(l.sampleType), SampleFormat(t));
    SpelledOnce(f, es, 317, l.predictor, predictor);
  }

  lemma TransformOfLayout(content: seq<u8>, es: seq<Entry>, reading: Reading, l: Layout, t: Transform)
    requires HoldsDoubles(content, es, 33550, 3, l.scale) && HoldsDoubles(content, es, 33922, 6, l.tiepoint)
    requires FitsMetadata(l)
    ensures Georeferences(content, es, reading.double, t) <==> MapsTiePoint(l, reading.double, t)
  {
    var scale, tiepoint := FindEntry(es, 33550).value, FindEntry(es, 33922).value;
    assert IsDoubleAt(content, scale, 0, l.scale[0]) && IsDoubleAt(content, scale, 1, l.scale[1]);
    assert IsDoubleAt(content, tiepoint, 0, l.tiepoint[0]) && IsDoubleAt(content, tiepoint, 1, l.tiepoint[1]);
    assert IsDoubleAt(content, tiepoint, 3, l.tiepoint[3]) && IsDoubleAt(content, tiepoint, 4, l.tiepoint[4]);
  }

  /** The reader's layout of the file, and what it makes of it, is what the directory says. */
  lemma HeaderOfLayout(content: seq<u8>, reading: Reading, f: Format, at: u64, es: seq<Entry>, h: Header, l: Layout)
    requires HoldsRaster(content, f, at, es, reading, h) && HoldsLayout(content, reading.isUtf8, l)
    ensures |content| <= U64_MAX && FitsMetadata(l) && RemoteOf(l, reading).WellFormed(|content|)
    ensures l.format == f && RemoteOf(l, reading).metadata == MetadataIn(h, reading)
    ensures StoresArray(f, h.offsets, |content|, RemoteOf(l, reading).offsets)
    ensures StoresArray(f, h.counts, |content|, RemoteOf(l, reading).counts)
    ensures MapsTiePoint(l, reading.double, h.transform)
  {
    LayoutOfDirectory(content, reading.isUtf8, l, f, at, es);
    LayoutFitsMetadata(content, reading, l);
    GridOfLayout(f, es, |content|, l, h.grid);
    SamplesOfLayout(f, es, |content|, l, h.sampleType, h.predictor);
    TransformOfLayout(content, es, reading, l, h.transform);
  }

  /** A prepared window carries the transform that the file declares. */
  lemma TiePointIsMapped(content: seq<u8>, kind: RasterKind, reading: Reading, box: Box, p: Prepared, f: Format,
                         at: u64, es: seq<Entry>)
    requires Prepares(content, kind, reading, box, p) && Acceptable(f, es) && HoldsDirectory(content, f, at, es)
    ensures Georeferences(content, es, reading.double, p.transform)
  {
    var l :| HoldsLayout(content, reading.isUtf8, l) && PreparesFrom(content, kind, reading, box, l, p);
    LayoutOfDirectory(content, reading.isUtf8, l, f, at, es);
    TransformOfLayout(content, es, reading, l, p.transform);
  }

  // ---- Tiles stored in a file ---------------------------------------------------------

  function ExtentOfArray(e: Entry): int {
    if e.fieldType == 4 then 4 * e.count else 8 * e.count
  }

  /** The entry names an array of LONG or LONG8 in its value field or inside the file. */
  predicate NamesIndex(content: seq<u8>, f: Format, e: Entry) {
    && (e.fieldType == 4 || e.fieldType == 16)
    && (ExtentOfArray(e) <= f.InlineWidth() || e.value + ExtentOfArray(e) <= |content|)
  }

  /** The bytes of the array: the first of the value field as the file holds it, or those it points at. */
  function NamedBytes(content: seq<u8>, f: Format, e: Entry): (b: seq<u8>)
    requires NamesIndex(content, f, e)
    ensures |b| == ExtentOfArray(e)
  {
    var field := 4 + f.InlineWidth();
    if ExtentOfArray(e) <= f.InlineWidth() then PrintEntry(f, e)[field..field + ExtentOfArray(e)]
    else content[e.value..e.value + ExtentOfArray(e)]
  }

  /** The little-endian number in its place. */
  function NamedValue(content: seq<u8>, f: Format, e: Entry, index: nat): nat
    requires NamesIndex(content, f, e) && index < e.count
  {
    if e.fieldType == 4 then ParseLe(NamedBytes(content, f, e)[4 * index..4 * index + 4])
    else ParseLe(NamedBytes(content, f, e)[8 * index..8 * index + 8])
  }

  lemma NamedValueIsIndexValue(content: seq<u8>, f: Format, e: Entry, d: Descriptor, index: nat)
    requires |content| <= U64_MAX && StoresArray(f, e, |content|, d) && index < e.count
    ensures NamesIndex(content, f, e) && d.WellFormed(|content|)
    ensures NamedValue(content, f, e, index) == IndexValue(content, d, index)
  {
    ArrayIsAccepted(f, e, |content|, d);
    if d.storage.InlineScalar? {
      InlineArrayIsPrinted(content, f, e);
    }
    assert NamedBytes(content, f, e) == ArrayBytes(content, d);
  }

  /**
    The file stores a tile: from the number at its place in the array of tag 324 on, as many bytes
    as the number at its place in the array of tag 325 says inflate to it.
   */
  ghost predicate FileStoresTile(content: seq<u8>, f: Format, h: Header, inflate: Inflate, index: nat,
                                 encoded: seq<u8>)
  {
    && NamesIndex(content, f, h.offsets) && NamesIndex(content, f, h.counts)
    && index < h.offsets.count && index < h.counts.count
    && var start := NamedValue(content, f, h.offsets, index);
       var end := start + NamedValue(content, f, h.counts, index);
       && end <= |content|
       && inflate(content[start..end], h.TileBytes() + 1) == Some(encoded)
  }

  /** Every tile of the raster is stored, under the declared predictor; beyond the edge `raster` is the padding. */
  ghost predicate FileStoresBytes(content: seq<u8>, f: Format, h: Header, inflate: Inflate, raster: (int, int) -> u8)
    requires h.grid.WellFormed()
  {
    forall index: nat :: index < h.grid.TilesAcross() * h.grid.TilesDown() ==>
      FileStoresTile(content, f, h, inflate, index,
                     EncodedBytes(h.predictor, PaddedTile(h.grid, raster, index), h.grid.tileWidth))
  }

  ghost predicate FileStoresWords(content: seq<u8>, f: Format, h: Header, inflate: Inflate, raster: (int, int) -> u32)
    requires h.grid.WellFormed()
  {
    forall index: nat :: index < h.grid.TilesAcross() * h.grid.TilesDown() ==>
      FileStoresTile(content, f, h, inflate, index,
                     EncodedWords(h.predictor, PaddedTile(h.grid, raster, index), h.grid.tileWidth))
  }

  /** The range of a stored tile is the one that the descriptors of the two arrays give. */
  lemma RangeIsReached(content: seq<u8>, f: Format, h: Header, offsets: Descriptor, counts: Descriptor,
                       inflate: Inflate, index: nat, encoded: seq<u8>) returns (start: nat, end: nat)
    requires |content| <= U64_MAX
    requires StoresArray(f, h.offsets, |content|, offsets) && StoresArray(f, h.counts, |content|, counts)
    requires FileStoresTile(content, f, h, inflate, index, encoded)
    ensures offsets.WellFormed(|content|) && counts.WellFormed(|content|)
    ensures index < offsets.count && index < counts.count && start <= end <= |content|
    ensures IndexValue(content, offsets, index) == start && IndexValue(content, counts, index) == end - start
    ensures inflate(content[start..end], h.TileBytes() + 1) == Some(encoded)
  {
    NamedValueIsIndexValue(content, f, h.offsets, offsets, index);
    NamedValueIsIndexValue(content, f, h.counts, counts, index);
    start := NamedValue(content, f, h.offsets, index);
    end := start + NamedValue(content, f, h.counts, index);
  }

  /** What the file stores is what the reader's descriptors reach. */
  lemma TileIsReached(content: seq<u8>, f: Format, h: Header, reading: Reading, remote: Remote, inflate: Inflate,
                      index: nat, encoded: seq<u8>)
    requires |content| <= U64_MAX && remote.WellFormed(|content|) && h.grid.WellFormed()
    requires remote.metadata == MetadataIn(h, reading)
    requires StoresArray(f, h.offsets, |content|, remote.offsets)
    requires StoresArray(f, h.counts, |content|, remote.counts)
    requires FileStoresTile(content, f, h, inflate, index, encoded)
    ensures StoresTile(content, remote, inflate, index, encoded)
  {
    var start, end := RangeIsReached(content, f, h, remote.offsets, remote.counts, inflate, index, encoded);
    TileBetween(content, remote, inflate, index, encoded, start, end);
  }

  lemma TileBetween(content: seq<u8>, remote: Remote, inflate: Inflate, index: nat, encoded: seq<u8>, start: nat,
                    end: nat)
    requires |content| <= U64_MAX && remote.WellFormed(|content|) && remote.metadata.grid.WellFormed()
    requires index < remote.offsets.count && index < remote.counts.count && start <= end <= |content|
    requires IndexValue(content, remote.offsets, index) == start
    requires IndexValue(content, remote.counts, index) == end - start
    requires inflate(content[start..end], ChunkBytes(remote.metadata) + 1) == Some(encoded)
    ensures StoresTile(content, remote, inflate, index, encoded)
  {
  }

  lemma BytesAreReached(content: seq<u8>, f: Format, h: Header, reading: Reading, remote: Remote, inflate: Inflate,
                        raster: (int, int) -> u8)
    requires |content| <= U64_MAX && remote.WellFormed(|content|) && h.grid.WellFormed()
    requires remote.metadata == MetadataIn(h, reading)
    requires StoresArray(f, h.offsets, |content|, remote.offsets)
    requires StoresArray(f, h.counts, |content|, remote.counts)
    requires FileStoresBytes(content, f, h, inflate, raster)
    ensures StoresBytes(content, remote, inflate, raster)
  {
    var m := remote.metadata;
    forall index: nat | index < m.grid.TilesAcross() * m.grid.TilesDown()
      ensures StoresTile(content, remote, inflate, index,
                         EncodedBytes(m.predictor, PaddedTile(m.grid, raster, index), m.grid.tileWidth))
    {
      TileIsReached(content, f, h, reading, remote, inflate, index,
                    EncodedBytes(h.predictor, PaddedTile(h.grid, raster, index), h.grid.tileWidth));
    }
  }

  lemma WordsAreReached(content: seq<u8>, f: Format, h: Header, reading: Reading, remote: Remote, inflate: Inflate,
                        raster: (int, int) -> u32)
    requires |content| <= U64_MAX && remote.WellFormed(|content|) && h.grid.WellFormed()
    requires remote.metadata == MetadataIn(h, reading)
    requires StoresArray(f, h.offsets, |content|, remote.offsets)
    requires StoresArray(f, h.counts, |content|, remote.counts)
    requires FileStoresWords(content, f, h, inflate, raster)
    ensures StoresWords(content, remote, inflate, raster)
  {
    var m := remote.metadata;
    forall index: nat | index < m.grid.TilesAcross() * m.grid.TilesDown()
      ensures StoresTile(content, remote, inflate, index,
                         EncodedWords(m.predictor, PaddedTile(m.grid, raster, index), m.grid.tileWidth))
    {
      TileIsReached(content, f, h, reading, remote, inflate, index,
                    EncodedWords(h.predictor, PaddedTile(h.grid, raster, index), h.grid.tileWidth));
    }
  }

  // ---- From bytes and box to the crop -------------------------------------------------

  /**
    Every raster pixel whose cell meets the box lies in the window, and every pixel of the window
    is within one of it.
   */
  ghost predicate CoversBox(t: Transform, g: Grid, box: Box, w: Window) {
    && w.Inside(g)
    && (forall row, col ::
        0 <= row < g.height && 0 <= col < g.width && CellMeets(t, box, row, col, 0) ==> w.Contains(row, col))
    && (forall row, col :: w.Contains(row, col) ==> CellMeets(t, box, row, col, 1))
  }

  lemma WindowCoversBox(t: Transform, g: Grid, box: Box, w: Window)
    requires g.WellFormed() && FromBox(t, g.width, g.height, box) == Success(w)
    ensures CoversBox(t, g, box, w)
  {
    BoxIsCovered(t, g, box);
  }

  /** What is prepared is the file's raster, in a window that covers the box. */
  lemma PreparedOfHeader(content: seq<u8>, kind: RasterKind, reading: Reading, box: Box, p: Prepared, f: Format,
                         at: u64, es: seq<Entry>, h: Header)
    requires Prepares(content, kind, reading, box, p) && HoldsRaster(content, f, at, es, reading, h)
    ensures PreparedFor(content, kind, box, p) && p.remote.metadata == MetadataIn(h, reading)
    ensures StoresArray(f, h.offsets, |content|, p.remote.offsets)
    ensures StoresArray(f, h.counts, |content|, p.remote.counts)
    ensures p.transform == h.transform && CoversBox(h.transform, h.grid, box, p.window)
  {
    var l :| HoldsLayout(content, reading.isUtf8, l) && PreparesFrom(content, kind, reading, box, l, p);
    HeaderOfLayout(content, reading, f, at, es, h, l);
    TransformMapsTiePoint(l, reading.double, p.transform);
    TransformMapsTiePoint(l, reading.double, h.transform);
    WindowCoversBox(p.transform, p.remote.metadata.grid, box, p.window);
  }

  /** A read for a box is a read of the file's raster, in a window that covers the box. */
  lemma BoxReadIsReadable(content: seq<u8>, kind: RasterKind, reading: Reading, fp: FloatCast, inflate: Inflate,
                          box: Box, w: Window, data: WindowData, f: Format, at: u64, es: seq<Entry>, h: Header)
    returns (remote: Remote)
    requires BoxReadable(content, kind, reading, fp, inflate, box, w, data)
    requires HoldsRaster(content, f, at, es, reading, h)
    ensures |content| <= U64_MAX && remote.WellFormed(|content|) && remote.metadata == MetadataIn(h, reading)
    ensures StoresArray(f, h.offsets, |content|, remote.offsets) && StoresArray(f, h.counts, |content|, remote.counts)
    ensures MeritLayout(remote, kind) && CoversBox(h.transform, h.grid, box, w)
    ensures RemoteWindow.Readable(content, remote, kind, fp, inflate, w, data)
  {
    var p: Prepared :| p.window == w && Answers(content, kind, reading, fp, inflate, box, p, data);
    PreparedOfHeader(content, kind, reading, box, p, f, at, es, h);
    remote := p.remote;
  }

  /** Neither index entry is a single inline LONG with other bytes beside it. */
  predicate PlainIndex(f: Format, h: Header) {
    !PaddedLong(f, h.offsets) && !PaddedLong(f, h.counts)
  }

  lemma IndexIsPlain(f: Format, es: seq<Entry>, size: nat, h: Header, remote: Remote)
    requires size <= U64_MAX && AllReadable(f, es) && IndexEntries(es, h.offsets, h.counts)
    requires StoresArray(f, h.offsets, size, remote.offsets) && StoresArray(f, h.counts, size, remote.counts)
    ensures remote.Unpadded() <==> PlainIndex(f, h)
    ensures remote.Scalar() <==> !TwoLongs(f, h.offsets) && !TwoLongs(f, h.counts)
  {
    IndexCondition(f, es, 324, size, remote.offsets);
    IndexCondition(f, es, 325, size, remote.counts);
  }

  /**
    Whatever is read for a box of a stored flow-direction raster shows, pixel by pixel, the raster
    in a window that holds every pixel meeting the box.
   */
  lemma BoxOfStoredBytesIsCrop(content: seq<u8>, reading: Reading, fp: FloatCast, inflate: Inflate, box: Box,
                               w: Window, data: WindowData, f: Format, at: u64, es: seq<Entry>, h: Header,
                               raster: (int, int) -> u8)
    requires BoxReadable(content, FlowDir, reading, fp, inflate, box, w, data)
    requires HoldsRaster(content, f, at, es, reading, h) && PlainIndex(f, h)
    requires h.grid.WellFormed() && FileStoresBytes(content, f, h, inflate, raster)
    ensures CoversBox(h.transform, h.grid, box, w)
    ensures data.WindowBytes? && ShowsWindow(w, data.bytes, raster)
  {
    var remote := BoxReadIsReadable(content, FlowDir, reading, fp, inflate, box, w, data, f, at, es, h);
    IndexIsPlain(f, es, |content|, h, remote);
    BytesAreReached(content, f, h, reading, remote, inflate, raster);
    StoredBytesAreRead(content, remote, fp, inflate, w, raster, data);
    CropShowsWindow(w, raster);
  }

  /** The same for a stored accumulation raster, each pixel as its word is delivered. */
  lemma BoxOfStoredWordsIsCrop(content: seq<u8>, reading: Reading, fp: FloatCast, inflate: Inflate, box: Box,
                               w: Window, data: WindowData, f: Format, at: u64, es: seq<Entry>, h: Header,
                               raster: (int, int) -> u32)
    requires BoxReadable(content, FlowAcc, reading, fp, inflate, box, w, data)
    requires HoldsRaster(content, f, at, es, reading, h) && PlainIndex(f, h)
    requires h.grid.WellFormed() && FileStoresWords(content, f, h, inflate, raster)
    ensures CoversBox(h.transform, h.grid, box, w)
    ensures data.WindowFloats? && ShowsDelivered(MetadataIn(h, reading), fp, w, data.bits, raster)
  {
    var remote := BoxReadIsReadable(content, FlowAcc, reading, fp, inflate, box, w, data, f, at, es, h);
    IndexIsPlain(f, es, |content|, h, remote);
    WordsAreReached(content, f, h, reading, remote, inflate, raster);
    StoredWordsAreRead(content, remote, fp, inflate, w, raster, data);
  }

  // ---- When a stored raster can be read -----------------------------------------------

  lemma PlannedIsPrepared(content: seq<u8>, kind: RasterKind, reading: Reading, box: Box, l: Layout, p: Prepared)
    requires HoldsLayout(content, reading.isUtf8, l) && FitsMetadata(l)
    requires |content| <= U64_MAX && RemoteOf(l, reading).WellFormed(|content|)
    requires p.remote == RemoteOf(l, reading) && MapsTiePoint(l, reading.double, p.transform)
    requires MeritLayout(p.remote, kind) && FromBox(p.transform, l.width, l.height, box) == Success(p.window)
    requires Planned(content, p.remote, p.window, p.plan, p.tiles)
    ensures Prepares(content, kind, reading, box, p)
  {
    assert PreparesFrom(content, kind, reading, box, l, p);
  }

  lemma PreparedIsReadable(content: seq<u8>, kind: RasterKind, reading: Reading, fp: FloatCast, inflate: Inflate,
                           box: Box, p: Prepared, data: WindowData)
    requires Prepares(content, kind, reading, box, p)
    requires Fetches(content, p.remote, fp, inflate, p.window, p.plan, p.tiles, data)
    ensures BoxReadable(content, kind, reading, fp, inflate, box, p.window, data)
  {
    assert Answers(content, kind, reading, fp, inflate, box, p, data);
  }

  /** What is readable in a window of the layout is readable for a box with that window. */
  lemma ReadableInWindow(content: seq<u8>, kind: RasterKind, reading: Reading, fp: FloatCast, inflate: Inflate,
                         box: Box, w: Window, data: WindowData, l: Layout, t: Transform)
    requires HoldsLayout(content, reading.isUtf8, l) && FitsMetadata(l)
    requires |content| <= U64_MAX && RemoteOf(l, reading).WellFormed(|content|)
    requires MapsTiePoint(l, reading.double, t) && FromBox(t, l.width, l.height, box) == Success(w)
    requires RemoteWindow.Readable(content, RemoteOf(l, reading), kind, fp, inflate, w, data)
    ensures BoxReadable(content, kind, reading, fp, inflate, box, w, data)
  {
    var remote := RemoteOf(l, reading);
    var plan: seq<u32>, tiles: seq<ResolvedTile> :|
      Planned(content, remote, w, plan, tiles) && Fetches(content, remote, fp, inflate, w, plan, tiles, data);
    var p := Prepared(remote, t, w, plan, tiles, 0);
    PlannedIsPrepared(content, kind, reading, box, l, p);
    PreparedIsReadable(content, kind, reading, fp, inflate, box, p, data);
  }

  /** The window of the box in the file's raster, and its plan, stay under the reader's ceilings. */
  ghost predicate BoxWithinCeilings(content: seq<u8>, box: Box, w: Window, h: Header, remote: Remote, plan: seq<u32>,
                                    tiles: seq<ResolvedTile>)
    requires |content| <= U64_MAX && remote.WellFormed(|content|)
  {
    && FromBox(h.transform, h.grid.width, h.grid.height, box) == Success(w)
    && h.grid.WellFormed() && w.NonEmpty() && IsPlan(h.grid, w, Success(plan))
    && WithinCeilings(content, remote, w, plan, tiles)
  }

  /**
    A stored flow-direction raster with nothing beside an inline LONG is read for a box, wherever
    the ceilings allow it, exactly when neither index entry holds two LONGs side by side.
   */
  lemma BoxOfStoredBytesIsReadable(content: seq<u8>, reading: Reading, fp: FloatCast, inflate: Inflate, box: Box,
                                   w: Window, f: Format, at: u64, es: seq<Entry>, h: Header, l: Layout,
                                   plan: seq<u32>, tiles: seq<ResolvedTile>, raster: (int, int) -> u8)
    requires HoldsRaster(content, f, at, es, reading, h) && PlainIndex(f, h)
    requires |content| <= U64_MAX && HoldsLayout(content, reading.isUtf8, l) && FitsMetadata(l)
    requires RemoteOf(l, reading).WellFormed(|content|) && MeritLayout(RemoteOf(l, reading), FlowDir)
    requires BoxWithinCeilings(content, box, w, h, RemoteOf(l, reading), plan, tiles)
    requires FileStoresBytes(content, f, h, inflate, raster) && exists b :: NodataByte(MetadataIn(h, reading), b)
    ensures (exists data :: BoxReadable(content, FlowDir, reading, fp, inflate, box, w, data))
            <==> !TwoLongs(f, h.offsets) && !TwoLongs(f, h.counts)
  {
    HeaderOfLayout(content, reading, f, at, es, h, l);
    var remote := RemoteOf(l, reading);
    IndexIsPlain(f, es, |content|, h, remote);
    BytesAreReached(content, f, h, reading, remote, inflate, raster);
    WindowIsInside(h.transform, h.grid, box, w);
    NodataIsByte(remote.metadata);
    StoredBytesAreReadable(content, remote, fp, inflate, w, plan, tiles, raster);
    if remote.Scalar() {
      var data := WindowBytes(Crop(w, raster));
      ReadableInWindow(content, FlowDir, reading, fp, inflate, box, w, data, l, h.transform);
    } else {
      NotReadable(content, FlowDir, reading, fp, inflate, box, w, f, at, es, h, remote);
    }
  }

  /** The same for a stored accumulation raster. */
  lemma BoxOfStoredWordsIsReadable(content: seq<u8>, reading: Reading, fp: FloatCast, inflate: Inflate, box: Box,
                                   w: Window, f: Format, at: u64, es: seq<Entry>, h: Header, l: Layout,
                                   plan: seq<u32>, tiles: seq<ResolvedTile>, raster: (int, int) -> u32)
    requires HoldsRaster(content, f, at, es, reading, h) && PlainIndex(f, h)
    requires |content| <= U64_MAX && HoldsLayout(content, reading.isUtf8, l) && FitsMetadata(l)
    requires RemoteOf(l, reading).WellFormed(|content|) && MeritLayout(RemoteOf(l, reading), FlowAcc)
    requires BoxWithinCeilings(content, box, w, h, RemoteOf(l, reading), plan, tiles)
    requires FileStoresWords(content, f, h, inflate, raster)
    ensures (exists data :: BoxReadable(content, FlowAcc, reading, fp, inflate, box, w, data))
            <==> !TwoLongs(f, h.offsets) && !TwoLongs(f, h.counts)
  {
    HeaderOfLayout(content, reading, f, at, es, h, l);
    var remote := RemoteOf(l, reading);
    IndexIsPlain(f, es, |content|, h, remote);
    WordsAreReached(content, f, h, reading, remote, inflate, raster);
    WindowIsInside(h.transform, h.grid, box, w);
    StoredWordsAreReadable(content, remote, fp, inflate, w, plan, tiles, raster);
    if remote.Scalar() {
      var data := WindowFloats(Crop(w, (row, col) => Delivered(remote.metadata, fp, raster(row, col))));
      ReadableInWindow(content, FlowAcc, reading, fp, inflate, box, w, data, l, h.transform);
    } else {
      NotReadable(content, FlowAcc, reading, fp, inflate, box, w, f, at, es, h, remote);
    }
  }

  /** Nothing is read through an index entry of two LONGs. */
  lemma NotReadable(content: seq<u8>, kind: RasterKind, reading: Reading, fp: FloatCast, inflate: Inflate, box: Box,
                    w: Window, f: Format, at: u64, es: seq<Entry>, h: Header, remote: Remote)
    requires |content| <= U64_MAX && HoldsRaster(content, f, at, es, reading, h)
    requires StoresArray(f, h.offsets, |content|, remote.offsets) && StoresArray(f, h.counts, |content|, remote.counts)
    requires !remote.Scalar()
    ensures forall data :: !BoxReadable(content, kind, reading, fp, inflate, box, w, data)
  {
    forall data | BoxReadable(content, kind, reading, fp, inflate, box, w, data) ensures false {
      var own := BoxReadIsReadable(content, kind, reading, fp, inflate, box, w, data, f, at, es, h);
      ReadableIsScalar(content, own, kind, fp, inflate, w, data);
    }
  }
}
