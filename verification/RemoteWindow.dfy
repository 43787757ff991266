/**
  One remote window, from the tile index to the delivered buffer: validate the layout, plan
  the tiles, resolve and fetch them, decode, assemble.
 */
module RemoteWindow {
  import opened Prelude
  import opened TileGrid
  import opened WindowDecode
  import opened WindowAssembly
  import opened ObjectStore
  import opened TileIndex
  import opened TiffDirectory
  import opened BoxWindow

  /** A remote raster: its decoded metadata and the descriptors of its tile index. */
  datatype Remote = Remote(metadata: Metadata, compression: u16, offsets: Descriptor, counts: Descriptor) {
    predicate WellFormed(size: nat) {
      && metadata.grid.width > 0 && metadata.grid.height > 0
      && offsets.WellFormed(size) && counts.WellFormed(size)
    }

    /** Neither index array is stored in its entry as several values. */
    predicate Scalar() {
      offsets.Scalar() && counts.Scalar()
    }

    /** Neither index array is an inline LONG with other bytes beside it. */
    predicate Unpadded() {
      offsets.Unpadded() && counts.Unpadded()
    }
  }

  datatype ReadError =
    | Layout(layoutError: LayoutError)
    | UnsupportedLayout
    | Outside(boxError: BoxError)
    | Plan(planError: PlanError)
    | Index(indexError: IndexError)
    | Decode(decodeError: DecodeError)
  {
    /** A missing or short answer of the store, not a property of the object. */
    predicate IsFault() {
      this == Layout(LayoutError.Transport) || this == Index(IncompleteResponse)
    }
  }

  /** `validate_merit_layout`. */
  predicate MeritLayout(remote: Remote, kind: RasterKind) {
    var m := remote.metadata;
    && m.grid.tileWidth == 512 && m.grid.tileHeight == 512
    && m.grid.WellFormed()
    && remote.offsets.count == m.grid.TilesAcross() * m.grid.TilesDown()
    && remote.counts.count == m.grid.TilesAcross() * m.grid.TilesDown()
    && (if kind.FlowDir? then m.sampleType.Width() == 1 else m.sampleType.Width() == 4)
    && (remote.compression == 8 || remote.compression == 32946)
    && Supported(m.sampleType, m.predictor)
  }

  /** The checks of `validate_merit_layout`, in the program's order: all pass exactly for a layout of the dataset. */
  method ValidateMeritLayout(remote: Remote, kind: RasterKind) returns (valid: bool)
    requires remote.metadata.grid.width > 0 && remote.metadata.grid.height > 0
    ensures valid <==> MeritLayout(remote, kind)
  {
    var m := remote.metadata;
    if m.grid.tileWidth != 512 || m.grid.tileHeight != 512 {
      return false;
    }
    var expected := m.grid.TilesAcross() * m.grid.TilesDown();
    if remote.offsets.count != expected || remote.counts.count != expected {
      return false;
    }
    var validSample := match kind
      case FlowDir => m.sampleType.U8? || m.sampleType.I8?
      case FlowAcc => m.sampleType.F32? || m.sampleType.I32?;
    if !validSample {
      return false;
    }
    if remote.compression != 8 && remote.compression != 32946 {
      return false;
    }
    return match m.sampleType
      case F32 => m.predictor == 1 || m.predictor == 3
      case _ => m.predictor == 1 || m.predictor == 2;
  }

  /** After layout validation no planned tile exceeds either descriptor, and every tile is addressable. */
  lemma ValidatedPlanIsIndexed(remote: Remote, kind: RasterKind, w: Window, plan: seq<u32>)
    requires MeritLayout(remote, kind) && w.Inside(remote.metadata.grid)
    requires IsPlan(remote.metadata.grid, w, Success(plan))
    ensures TilesCovered(remote.metadata, w, plan)
    ensures forall k :: 0 <= k < |plan| ==> plan[k] < remote.offsets.count && plan[k] < remote.counts.count
  {
    PlanIsExact(remote.metadata.grid, w, plan);
    PlannedTilesAreCovered(remote.metadata, w, plan);
  }

  function Chunks(content: seq<u8>, tiles: seq<ResolvedTile>): (c: seq<seq<u8>>)
    requires forall k :: 0 <= k < |tiles| ==> tiles[k].range.start <= tiles[k].range.end <= |content|
    ensures |c| == |tiles|
  {
    seq(|tiles|, k requires 0 <= k < |tiles| => content[tiles[k].range.start..tiles[k].range.end])
  }

  /** Fetch the compressed tiles: whole, in plan order, none of them outside the object. */
  method FetchChunks(store: Store, tiles: seq<ResolvedTile>) returns (r: Result<seq<seq<u8>>, IndexError>)
    modifies store
    ensures r.Success? ==> Fetchable(tiles, |store.content|) && r.value == Chunks(store.content, tiles)
    ensures r.Failure? && r.error != IncompleteResponse ==> !Fetchable(tiles, |store.content|)
    ensures store.faults >= old(store.faults) && (r == Failure(IncompleteResponse) ==> store.faults > old(store.faults))
  {
    var ranges :- ValidateCompressedRanges(tiles, |store.content|);
    var fetched := store.GetRanges(ranges);
    if fetched.Failure? || |fetched.value| != |tiles| {
      return Failure(IncompleteResponse);
    }
    for k := 0 to |tiles|
      invariant forall j :: 0 <= j < k ==> fetched.value[j] == Chunks(store.content, tiles)[j]
    {
      if |fetched.value[k]| != tiles[k].range.end - tiles[k].range.start {
        return Failure(IncompleteResponse);
      }
    }
    assert fetched.value == Chunks(store.content, tiles);
    return Success(fetched.value);
  }

  /** The planned tiles, as the reader takes them from the file's index. */
  ghost predicate ResolvesTo(content: seq<u8>, remote: Remote, plan: seq<u32>, tiles: seq<ResolvedTile>)
    requires |content| <= U64_MAX && remote.WellFormed(|content|)
  {
    && |tiles| == |plan|
    && forall k :: 0 <= k < |plan| ==> Reads(content, remote.offsets, remote.counts, plan[k], tiles[k])
  }

  /** The tiles of the window's plan, resolved without overflow. */
  ghost predicate Planned(content: seq<u8>, remote: Remote, w: Window, plan: seq<u32>, tiles: seq<ResolvedTile>)
    requires |content| <= U64_MAX && remote.WellFormed(|content|)
  {
    && remote.metadata.grid.WellFormed() && w.NonEmpty() && IsPlan(remote.metadata.grid, w, Success(plan))
    && Resolvable(content, remote.offsets, remote.counts, plan) && ResolvesTo(content, remote, plan, tiles)
  }

  /** The tiles may be fetched, and decode to `data`. */
  ghost predicate Fetches(content: seq<u8>, remote: Remote, fp: FloatCast, inflate: Inflate, w: Window,
                          plan: seq<u32>, tiles: seq<ResolvedTile>, data: WindowData)
  {
    && TilesCovered(remote.metadata, w, plan) && Fetchable(tiles, |content|)
    && DecodedWindow(remote.metadata, fp, inflate, w, plan, Chunks(content, tiles)) == Success(data)
  }

  /**
    `data` is what the object holds for the window: the planned tiles, as the reader takes them
    from the index, may all be fetched and decode to it.
   */
  ghost predicate Readable(content: seq<u8>, remote: Remote, kind: RasterKind, fp: FloatCast, inflate: Inflate,
                           w: Window, data: WindowData)
    requires |content| <= U64_MAX && remote.WellFormed(|content|)
  {
    MeritLayout(remote, kind) && w.Inside(remote.metadata.grid)
    && exists plan, tiles ::
        Planned(content, remote, w, plan, tiles) && Fetches(content, remote, fp, inflate, w, plan, tiles, data)
  }

  /** Plan and tiles are determined by the window and the object. */
  lemma PlannedUnique(content: seq<u8>, remote: Remote, w: Window, plan: seq<u32>, tiles: seq<ResolvedTile>,
                      plan': seq<u32>, tiles': seq<ResolvedTile>)
    requires |content| <= U64_MAX && remote.WellFormed(|content|)
    requires Planned(content, remote, w, plan, tiles) && Planned(content, remote, w, plan', tiles')
    ensures plan == plan' && tiles == tiles'
  {
    forall k | 0 <= k < |plan| ensures tiles[k] == tiles'[k] {
      assert Reads(content, remote.offsets, remote.counts, plan[k], tiles[k]);
      assert Reads(content, remote.offsets, remote.counts, plan[k], tiles'[k]);
    }
  }

  /**
    The second half of a read: fetch the planned tiles and decode them, `fetch_window_to_path` up
    to the finished buffer.
   */
  method FetchWindow(store: Store, remote: Remote, fp: FloatCast, inflate: Inflate, w: Window, plan: seq<u32>,
                     tiles: seq<ResolvedTile>)
    returns (r: Result<WindowData, ReadError>)
    requires |store.content| <= U64_MAX && TilesCovered(remote.metadata, w, plan) && |tiles| == |plan|
    modifies store
    ensures r.Success? ==> Fetches(store.content, remote, fp, inflate, w, plan, tiles, r.value)
    ensures r.Failure? && !r.error.IsFault() ==>
              forall data :: !Fetches(store.content, remote, fp, inflate, w, plan, tiles, data)
    ensures store.faults >= old(store.faults) && (r.Failure? && r.error.IsFault() ==> store.faults > old(store.faults))
  {
    var chunks := FetchChunks(store, tiles);
    if chunks.Failure? {
      return Failure(Index(chunks.error));
    }
    var data := DecodeWindow(chunks.value, remote.metadata, fp, inflate, w, plan);
    if data.Failure? {
      return Failure(Decode(data.error));
    }
    return Success(data.value);
  }

  /** The first half, once layout and window are known: plan the tiles and resolve them. */
  method PlanTiles(store: Store, remote: Remote, kind: RasterKind, w: Window)
    returns (r: Result<(seq<u32>, ResolvedPlan), ReadError>)
    requires |store.content| <= U64_MAX && remote.WellFormed(|store.content|)
    requires MeritLayout(remote, kind) && w.Inside(remote.metadata.grid)
    modifies store
    ensures r.Success? ==>
              && Planned(store.content, remote, w, r.value.0, r.value.1.tiles)
              && TilesCovered(remote.metadata, w, r.value.0)
              && r.value.1.indexBytes == store.returned - old(store.returned) <= 16 * |r.value.0|
    ensures r.Failure? && !r.error.IsFault() ==> forall plan, tiles :: !Planned(store.content, remote, w, plan, tiles)
    ensures store.faults >= old(store.faults) && (r.Failure? && r.error.IsFault() ==> store.faults > old(store.faults))
  {
    var planned := ForWindow(remote.metadata.grid, w);
    if planned.Failure? {
      return Failure(Plan(planned.error));
    }
    var plan := planned.value;
    ValidatedPlanIsIndexed(remote, kind, w, plan);
    var resolved := ResolveTilePlan(store, remote.offsets, remote.counts, plan);
    if resolved.Failure? {
      return Failure(Index(resolved.error));
    }
    return Success((plan, resolved.value));
  }

  // ---- Reading back a stored raster ---------------------------------------------------

  /** The object stores tile `index`: the elements of its index arrays name a chunk that inflates to `encoded`. */
  ghost predicate StoresTile(content: seq<u8>, remote: Remote, inflate: Inflate, index: nat, encoded: seq<u8>)
    requires |content| <= U64_MAX && remote.WellFormed(|content|) && remote.metadata.grid.WellFormed()
  {
    && index < remote.offsets.count && index < remote.counts.count
    && var start := IndexValue(content, remote.offsets, index);
       var end := start + IndexValue(content, remote.counts, index);
       && end <= |content|
       && inflate(content[start..end], ChunkBytes(remote.metadata) + 1) == Some(encoded)
  }

  /** Every tile of the grid is stored, encoded from one raster; beyond the edge `raster` is the padding. */
  ghost predicate StoresBytes(content: seq<u8>, remote: Remote, inflate: Inflate, raster: (int, int) -> u8)
    requires |content| <= U64_MAX && remote.WellFormed(|content|) && remote.metadata.grid.WellFormed()
  {
    var m := remote.metadata;
    forall index: nat :: index < m.grid.TilesAcross() * m.grid.TilesDown() ==>
      StoresTile(content, remote, inflate, index,
          EncodedBytes(m.predictor, PaddedTile(m.grid, raster, index), m.grid.tileWidth))
  }

  ghost predicate StoresWords(content: seq<u8>, remote: Remote, inflate: Inflate, raster: (int, int) -> u32)
    requires |content| <= U64_MAX && remote.WellFormed(|content|) && remote.metadata.grid.WellFormed()
  {
    var m := remote.metadata;
    forall index: nat :: index < m.grid.TilesAcross() * m.grid.TilesDown() ==>
      StoresTile(content, remote, inflate, index,
          EncodedWords(m.predictor, PaddedTile(m.grid, raster, index), m.grid.tileWidth))
  }

  /** The bytes of a described tile are the stored chunk. */
  lemma StoredRange(content: seq<u8>, remote: Remote, inflate: Inflate, index: u32, tile: ResolvedTile,
                    encoded: seq<u8>)
    requires |content| <= U64_MAX && remote.WellFormed(|content|) && remote.metadata.grid.WellFormed()
    requires Describes(content, remote.offsets, remote.counts, index, tile)
    requires StoresTile(content, remote, inflate, index, encoded)
    ensures tile.range.start <= tile.range.end <= |content|
    ensures inflate(content[tile.range.start..tile.range.end], ChunkBytes(remote.metadata) + 1) == Some(encoded)
  {
  }

  /** The fetched chunk of a stored tile inflates to the tile. */
  lemma StoredChunk(content: seq<u8>, remote: Remote, inflate: Inflate, plan: seq<u32>, tiles: seq<ResolvedTile>,
                    k: nat, encoded: seq<u8>)
    requires |content| <= U64_MAX && remote.WellFormed(|content|) && remote.metadata.grid.WellFormed()
    requires remote.Unpadded()
    requires ResolvesTo(content, remote, plan, tiles) && Fetchable(tiles, |content|) && k < |plan|
    requires StoresTile(content, remote, inflate, plan[k], encoded)
    ensures inflate(Chunks(content, tiles)[k], ChunkBytes(remote.metadata) + 1) == Some(encoded)
  {
    assert Reads(content, remote.offsets, remote.counts, plan[k], tiles[k]);
    ReadsWhatIsDescribed(content, remote.offsets, remote.counts, plan[k], tiles[k]);
    StoredRange(content, remote, inflate, plan[k], tiles[k], encoded);
  }

  lemma MeritChunkIsSmall(remote: Remote, kind: RasterKind)
    requires MeritLayout(remote, kind)
    ensures ChunkBytes(remote.metadata) <= MAX_DECODED_CHUNK_BYTES
  {
    assert remote.metadata.grid.tileWidth * remote.metadata.grid.tileHeight == 512 * 512;
  }

  /** The chunks of a stored byte raster decode to its crop. */
  lemma StoredBytesDecode(content: seq<u8>, remote: Remote, fp: FloatCast, inflate: Inflate, w: Window,
                          plan: seq<u32>, tiles: seq<ResolvedTile>, raster: (int, int) -> u8)
    requires |content| <= U64_MAX && remote.WellFormed(|content|) && remote.Unpadded()
    requires MeritLayout(remote, FlowDir) && w.Inside(remote.metadata.grid)
    requires StoresBytes(content, remote, inflate, raster)
    requires Planned(content, remote, w, plan, tiles) && Fetchable(tiles, |content|)
    requires w.height * w.width <= MAX_WINDOW_ALLOCATION_BYTES && DirectionNodataByte(remote.metadata).Success?
    ensures 0 <= w.height * w.width && TilesCovered(remote.metadata, w, plan)
    ensures DecodedWindow(remote.metadata, fp, inflate, w, plan, Chunks(content, tiles)) ==
        Success(WindowBytes(Crop(w, raster)))
  {
    var m := remote.metadata;
    AreaNonNegative(w);
    ValidatedPlanIsIndexed(remote, FlowDir, w, plan);
    forall k | 0 <= k < |plan|
      ensures inflate(Chunks(content, tiles)[k], ChunkBytes(m) + 1)
           == Some(EncodedBytes(m.predictor, PaddedTile(m.grid, raster, plan[k]), m.grid.tileWidth))
    {
      StoredChunk(content, remote, inflate, plan, tiles, k,
          EncodedBytes(m.predictor, PaddedTile(m.grid, raster, plan[k]), m.grid.tileWidth));
    }
    MeritChunkIsSmall(remote, FlowDir);
    ByteReassemblyIsCrop(m, fp, inflate, w, plan, Chunks(content, tiles), raster);
  }

  /** The chunks of a stored 32-bit raster decode to its crop, as delivered. */
  lemma StoredWordsDecode(content: seq<u8>, remote: Remote, fp: FloatCast, inflate: Inflate, w: Window,
                          plan: seq<u32>, tiles: seq<ResolvedTile>, raster: (int, int) -> u32)
    requires |content| <= U64_MAX && remote.WellFormed(|content|) && remote.Unpadded()
    requires MeritLayout(remote, FlowAcc) && w.Inside(remote.metadata.grid)
    requires StoresWords(content, remote, inflate, raster)
    requires Planned(content, remote, w, plan, tiles) && Fetchable(tiles, |content|)
    requires 4 * (w.height * w.width) <= MAX_WINDOW_ALLOCATION_BYTES
    ensures 0 <= w.height * w.width && TilesCovered(remote.metadata, w, plan)
    ensures DecodedWindow(remote.metadata, fp, inflate, w, plan, Chunks(content, tiles))
         == Success(WindowFloats(Crop(w, (row, col) => Delivered(remote.metadata, fp, raster(row, col)))))
  {
    var m := remote.metadata;
    AreaNonNegative(w);
    ValidatedPlanIsIndexed(remote, FlowAcc, w, plan);
    forall k | 0 <= k < |plan|
      ensures inflate(Chunks(content, tiles)[k], ChunkBytes(m) + 1)
           == Some(EncodedWords(m.predictor, PaddedTile(m.grid, raster, plan[k]), m.grid.tileWidth))
    {
      StoredChunk(content, remote, inflate, plan, tiles, k,
          EncodedWords(m.predictor, PaddedTile(m.grid, raster, plan[k]), m.grid.tileWidth));
    }
    MeritChunkIsSmall(remote, FlowAcc);
    WordReassemblyIsCrop(m, fp, inflate, w, plan, Chunks(content, tiles), raster);
  }

  /** A window that decodes stayed under the allocation ceiling, and its nodata can be stored. */
  lemma DecodedIsAllocated(remote: Remote, fp: FloatCast, inflate: Inflate, w: Window, plan: seq<u32>,
                           chunks: seq<seq<u8>>)
    requires TilesCovered(remote.metadata, w, plan)
    requires DecodedWindow(remote.metadata, fp, inflate, w, plan, chunks).Success?
    ensures remote.metadata.sampleType.Width() * (w.height * w.width) <= MAX_WINDOW_ALLOCATION_BYTES
    ensures remote.metadata.sampleType.Width() == 1 ==> DirectionNodataByte(remote.metadata).Success?
  {
  }

  /**
    Whatever is read of a stored flow-direction raster is its crop, unless an inline LONG of its
    index has other bytes beside it.
   */
  lemma StoredBytesAreRead(content: seq<u8>, remote: Remote, fp: FloatCast, inflate: Inflate, w: Window,
                           raster: (int, int) -> u8, data: WindowData)
    requires |content| <= U64_MAX && remote.WellFormed(|content|) && remote.Unpadded()
    requires Readable(content, remote, FlowDir, fp, inflate, w, data) && StoresBytes(content, remote, inflate, raster)
    ensures w.NonEmpty() && 0 <= w.height * w.width && data == WindowBytes(Crop(w, raster))
  {
    var plan: seq<u32>, tiles: seq<ResolvedTile> :|
      Planned(content, remote, w, plan, tiles) && Fetches(content, remote, fp, inflate, w, plan, tiles, data);
    DecodedIsAllocated(remote, fp, inflate, w, plan, Chunks(content, tiles));
    StoredBytesDecode(content, remote, fp, inflate, w, plan, tiles, raster);
  }

  /**
    Whatever is read of a stored accumulation raster is its crop, sample by sample as delivered,
    under the same condition.
   */
  lemma StoredWordsAreRead(content: seq<u8>, remote: Remote, fp: FloatCast, inflate: Inflate, w: Window,
                           raster: (int, int) -> u32, data: WindowData)
    requires |content| <= U64_MAX && remote.WellFormed(|content|) && remote.Unpadded()
    requires Readable(content, remote, FlowAcc, fp, inflate, w, data) && StoresWords(content, remote, inflate, raster)
    ensures w.NonEmpty() && 0 <= w.height * w.width
    ensures data == WindowFloats(Crop(w, (row, col) => Delivered(remote.metadata, fp, raster(row, col))))
    ensures ShowsDelivered(remote.metadata, fp, w, data.bits, raster)
  {
    var plan: seq<u32>, tiles: seq<ResolvedTile> :|
      Planned(content, remote, w, plan, tiles) && Fetches(content, remote, fp, inflate, w, plan, tiles, data);
    DecodedIsAllocated(remote, fp, inflate, w, plan, Chunks(content, tiles));
    StoredWordsDecode(content, remote, fp, inflate, w, plan, tiles, raster);
    CropShowsDelivered(remote.metadata, fp, w, raster);
  }

  /** The planned tiles as the index describes them, and the window, stay under the reader's ceilings. */
  ghost predicate WithinCeilings(content: seq<u8>, remote: Remote, w: Window, plan: seq<u32>, tiles: seq<ResolvedTile>)
    requires |content| <= U64_MAX && remote.WellFormed(|content|)
  {
    && |tiles| == |plan|
    && (forall k :: 0 <= k < |plan| ==> Describes(content, remote.offsets, remote.counts, plan[k], tiles[k]))
    && Fetchable(tiles, |content|)
    && remote.metadata.sampleType.Width() * (w.height * w.width) <= MAX_WINDOW_ALLOCATION_BYTES
  }

  /** Described tiles are resolved when the index arrays are looked up and hold nothing beside an inline LONG. */
  lemma DescribedIsPlanned(content: seq<u8>, remote: Remote, w: Window, plan: seq<u32>, tiles: seq<ResolvedTile>)
    requires |content| <= U64_MAX && remote.WellFormed(|content|) && remote.Unpadded() && remote.Scalar()
    requires remote.metadata.grid.WellFormed() && w.NonEmpty() && IsPlan(remote.metadata.grid, w, Success(plan))
    requires WithinCeilings(content, remote, w, plan, tiles)
    ensures Planned(content, remote, w, plan, tiles)
  {
    forall k | 0 <= k < |plan|
      ensures Reads(content, remote.offsets, remote.counts, plan[k], tiles[k])
      ensures ReadValue(content, remote.offsets, plan[k]) + ReadValue(content, remote.counts, plan[k]) <= U64_MAX
    {
      assert Describes(content, remote.offsets, remote.counts, plan[k], tiles[k]);
      ReadValueIsIndexValue(content, remote.offsets, plan[k]);
      ReadValueIsIndexValue(content, remote.counts, plan[k]);
    }
    LengthsAreCovered(content, remote.offsets, remote.counts, plan, tiles);
  }

  lemma PlanIsNotEmpty(g: Grid, w: Window, plan: seq<u32>)
    requires g.WellFormed() && w.NonEmpty() && IsPlan(g, w, Success(plan))
    ensures plan != []
  {
    MulMono(1, SpanOf(g, w).Rows(), SpanOf(g, w).Cols());
  }

  lemma PlannedIsReadable(content: seq<u8>, remote: Remote, kind: RasterKind, fp: FloatCast, inflate: Inflate,
                          w: Window, plan: seq<u32>, tiles: seq<ResolvedTile>, data: WindowData)
    requires |content| <= U64_MAX && remote.WellFormed(|content|)
    requires MeritLayout(remote, kind) && w.Inside(remote.metadata.grid) && Planned(content, remote, w, plan, tiles)
    requires TilesCovered(remote.metadata, w, plan) && Fetchable(tiles, |content|)
    requires DecodedWindow(remote.metadata, fp, inflate, w, plan, Chunks(content, tiles)) == Success(data)
    ensures Readable(content, remote, kind, fp, inflate, w, data)
  {
    assert Fetches(content, remote, fp, inflate, w, plan, tiles, data);
  }

  /** Nothing is read through an index array that is stored in its entry as two values. */
  lemma ReadableIsScalar(content: seq<u8>, remote: Remote, kind: RasterKind, fp: FloatCast, inflate: Inflate,
                         w: Window, data: WindowData)
    requires |content| <= U64_MAX && remote.WellFormed(|content|)
    requires Readable(content, remote, kind, fp, inflate, w, data)
    ensures remote.Scalar()
  {
    var plan: seq<u32>, tiles: seq<ResolvedTile> :|
      Planned(content, remote, w, plan, tiles) && Fetches(content, remote, fp, inflate, w, plan, tiles, data);
    PlanIsNotEmpty(remote.metadata.grid, w, plan);
    assert remote.offsets.Holds(plan[0]) && remote.counts.Holds(plan[0]);
  }

  lemma UnreadableUnlessScalar(content: seq<u8>, remote: Remote, kind: RasterKind, fp: FloatCast, inflate: Inflate,
                               w: Window, data: WindowData)
    requires |content| <= U64_MAX && remote.WellFormed(|content|) && !remote.Scalar()
    ensures !Readable(content, remote, kind, fp, inflate, w, data)
  {
    if Readable(content, remote, kind, fp, inflate, w, data) {
      ReadableIsScalar(content, remote, kind, fp, inflate, w, data);
    }
  }

  lemma SameProduct(a: int, b: int, c: int)
    requires a == b
    ensures a * c == b * c
  {
  }

  lemma StoredBytesAreDelivered(content: seq<u8>, remote: Remote, fp: FloatCast, inflate: Inflate, w: Window,
                                plan: seq<u32>, tiles: seq<ResolvedTile>, raster: (int, int) -> u8)
    requires |content| <= U64_MAX && remote.WellFormed(|content|) && MeritLayout(remote, FlowDir) && remote.Unpadded()
    requires w.Inside(remote.metadata.grid) && Planned(content, remote, w, plan, tiles) && Fetchable(tiles, |content|)
    requires StoresBytes(content, remote, inflate, raster)
    requires remote.metadata.sampleType.Width() * (w.height * w.width) <= MAX_WINDOW_ALLOCATION_BYTES
    requires DirectionNodataByte(remote.metadata).Success?
    ensures 0 <= w.height * w.width
    ensures Readable(content, remote, FlowDir, fp, inflate, w, WindowBytes(Crop(w, raster)))
  {
    SameProduct(remote.metadata.sampleType.Width(), 1, w.height * w.width);
    StoredBytesDecode(content, remote, fp, inflate, w, plan, tiles, raster);
    PlannedIsReadable(content, remote, FlowDir, fp, inflate, w, plan, tiles, WindowBytes(Crop(w, raster)));
  }

  lemma StoredWordsAreDelivered(content: seq<u8>, remote: Remote, fp: FloatCast, inflate: Inflate, w: Window,
                                plan: seq<u32>, tiles: seq<ResolvedTile>, raster: (int, int) -> u32)
    requires |content| <= U64_MAX && remote.WellFormed(|content|) && MeritLayout(remote, FlowAcc) && remote.Unpadded()
    requires w.Inside(remote.metadata.grid) && Planned(content, remote, w, plan, tiles) && Fetchable(tiles, |content|)
    requires StoresWords(content, remote, inflate, raster)
    requires remote.metadata.sampleType.Width() * (w.height * w.width) <= MAX_WINDOW_ALLOCATION_BYTES
    ensures 0 <= w.height * w.width
    ensures var data := WindowFloats(Crop(w, (row, col) => Delivered(remote.metadata, fp, raster(row, col))));
            Readable(content, remote, FlowAcc, fp, inflate, w, data)
  {
    SameProduct(remote.metadata.sampleType.Width(), 4, w.height * w.width);
    StoredWordsDecode(content, remote, fp, inflate, w, plan, tiles, raster);
    var data := WindowFloats(Crop(w, (row, col) => Delivered(remote.metadata, fp, raster(row, col))));
    PlannedIsReadable(content, remote, FlowAcc, fp, inflate, w, plan, tiles, data);
  }

  /**
    A stored flow-direction raster can be read, wherever the ceilings allow it, exactly when its
    index arrays are not stored as two LONGs in their entries.
   */
  lemma StoredBytesAreReadable(content: seq<u8>, remote: Remote, fp: FloatCast, inflate: Inflate, w: Window,
                               plan: seq<u32>, tiles: seq<ResolvedTile>, raster: (int, int) -> u8)
    requires |content| <= U64_MAX && remote.WellFormed(|content|) && MeritLayout(remote, FlowDir) && remote.Unpadded()
    requires w.Inside(remote.metadata.grid) && IsPlan(remote.metadata.grid, w, Success(plan))
    requires StoresBytes(content, remote, inflate, raster) && WithinCeilings(content, remote, w, plan, tiles)
    requires DirectionNodataByte(remote.metadata).Success?
    ensures 0 <= w.height * w.width
    ensures Readable(content, remote, FlowDir, fp, inflate, w, WindowBytes(Crop(w, raster))) <==> remote.Scalar()
  {
    AreaNonNegative(w);
    var data := WindowBytes(Crop(w, raster));
    if remote.Scalar() {
      DescribedIsPlanned(content, remote, w, plan, tiles);
      StoredBytesAreDelivered(content, remote, fp, inflate, w, plan, tiles, raster);
    } else {
      UnreadableUnlessScalar(content, remote, FlowDir, fp, inflate, w, data);
    }
  }

  /** The same for a stored accumulation raster. */
  lemma StoredWordsAreReadable(content: seq<u8>, remote: Remote, fp: FloatCast, inflate: Inflate, w: Window,
                               plan: seq<u32>, tiles: seq<ResolvedTile>, raster: (int, int) -> u32)
    requires |content| <= U64_MAX && remote.WellFormed(|content|) && MeritLayout(remote, FlowAcc) && remote.Unpadded()
    requires w.Inside(remote.metadata.grid) && IsPlan(remote.metadata.grid, w, Success(plan))
    requires StoresWords(content, remote, inflate, raster) && WithinCeilings(content, remote, w, plan, tiles)
    ensures 0 <= w.height * w.width
    ensures var data := WindowFloats(Crop(w, (row, col) => Delivered(remote.metadata, fp, raster(row, col))));
            Readable(content, remote, FlowAcc, fp, inflate, w, data) <==> remote.Scalar()
  {
    AreaNonNegative(w);
    var data := WindowFloats(Crop(w, (row, col) => Delivered(remote.metadata, fp, raster(row, col))));
    if remote.Scalar() {
      DescribedIsPlanned(content, remote, w, plan, tiles);
      StoredWordsAreDelivered(content, remote, fp, inflate, w, plan, tiles, raster);
    } else {
      UnreadableUnlessScalar(content, remote, FlowAcc, fp, inflate, w, data);
    }
  }
}
