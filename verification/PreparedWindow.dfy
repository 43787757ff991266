/**
  A whole remote read, from the bytes of the object and a bounding box to the delivered
  buffer: read the layout, turn the box into a window, plan and resolve its tiles, fetch and
  decode them.
 */
module PreparedWindow {
  import opened Prelude
  import opened TileGrid
  import opened WindowDecode
  import opened WindowAssembly
  import opened ObjectStore
  import opened TiffDirectory
  import opened TileIndex
  import opened RemoteLayout
  import opened BoxWindow
  import opened RemoteWindow

  /**
    How stored values are understood: the real number of a double's bits, the nodata text as each
    type parses it, valid text.
   */
  datatype Reading = Reading(double: u64 -> real, nodata: (Option<seq<u8>>, SampleType) -> Nodata,
                             isUtf8: seq<u8> -> bool)

  /** `metadata_from_layout`: dimensions must fit 32 bits. */
  predicate FitsMetadata(l: Layout) {
    && l.width <= U32_MAX && l.height <= U32_MAX && l.tileWidth <= U32_MAX && l.tileHeight <= U32_MAX
    && |l.scale| == 3 && |l.tiepoint| == 6
  }

  function RemoteOf(l: Layout, reading: Reading): Remote
    requires FitsMetadata(l)
  {
    var grid := Grid(l.width, l.height, l.tileWidth, l.tileHeight);
    Remote(Metadata(grid, l.sampleType, l.predictor, reading.nodata(l.nodata, l.sampleType)), l.compression,
        l.offsets, l.counts)
  }

  function TransformFrom(l: Layout, double: u64 -> real): Transform
    requires FitsMetadata(l)
  {
    Transform(
      double(l.tiepoint[3]) - double(l.tiepoint[0]) * double(l.scale[0]),
      double(l.tiepoint[4]) + double(l.tiepoint[1]) * double(l.scale[1]),
      double(l.scale[0]),
      -double(l.scale[1]))
  }

  /**
    The transform of a north-up raster: pixels of the declared scale, and the raster position of
    the tie point mapped to its model position.
   */
  ghost predicate MapsTiePoint(l: Layout, double: u64 -> real, t: Transform)
    requires FitsMetadata(l)
  {
    && t.pixelWidth == double(l.scale[0]) && -t.pixelHeight == double(l.scale[1])
    && t.originX + double(l.tiepoint[0]) * t.pixelWidth == double(l.tiepoint[3])
    && t.originY + double(l.tiepoint[1]) * t.pixelHeight == double(l.tiepoint[4])
  }

  /** The program's transform is the one that maps the tie point. */
  lemma TransformMapsTiePoint(l: Layout, double: u64 -> real, t: Transform)
    requires FitsMetadata(l)
    ensures MapsTiePoint(l, double, t) <==> t == TransformFrom(l, double)
  {
    var j, s := double(l.tiepoint[1]), double(l.scale[1]);
    assert j * (-s) == -(j * s);
  }

  lemma LayoutFitsMetadata(content: seq<u8>, reading: Reading, l: Layout)
    requires HoldsLayout(content, reading.isUtf8, l)
    ensures FitsMetadata(l) && |content| <= U64_MAX && RemoteOf(l, reading).WellFormed(|content|)
  {
    DimensionsFit(content, reading.isUtf8, l);
    var at, es :| Acceptable(l.format, es) && HoldsDirectory(content, l.format, at, es) &&
        DescribedBy(content, es, reading.isUtf8, l);
    DescribedShape(content, es, reading.isUtf8, l);
  }

  /** A window ready to be fetched. */
  datatype Prepared = Prepared(remote: Remote, transform: Transform, window: Window, plan: seq<u32>,
                               tiles: seq<ResolvedTile>, headerBytes: nat)

  /** The object's layout, the window of the box in it, and the resolved tiles of the window. */
  ghost predicate Prepares(content: seq<u8>, kind: RasterKind, reading: Reading, box: Box, p: Prepared) {
    exists l :: HoldsLayout(content, reading.isUtf8, l) && PreparesFrom(content, kind, reading, box, l, p)
  }

  ghost predicate PreparesFrom(content: seq<u8>, kind: RasterKind, reading: Reading, box: Box, l: Layout, p: Prepared) {
    && FitsMetadata(l) && p.remote == RemoteOf(l, reading) && MapsTiePoint(l, reading.double, p.transform)
    && PreparedFor(content, kind, box, p)
  }

  /** The raster has the required layout; the window is that of the box, planned and resolved. */
  ghost predicate PreparedFor(content: seq<u8>, kind: RasterKind, box: Box, p: Prepared) {
    && |content| <= U64_MAX && p.remote.WellFormed(|content|) && MeritLayout(p.remote, kind)
    && FromBox(p.transform, p.remote.metadata.grid.width, p.remote.metadata.grid.height, box) == Success(p.window)
    && Planned(content, p.remote, p.window, p.plan, p.tiles)
  }

  lemma SameRaster(reading: Reading, l: Layout, l': Layout, t: Transform)
    requires l.(bytesRead := 0) == l'.(bytesRead := 0) && FitsMetadata(l')
    ensures FitsMetadata(l) && RemoteOf(l, reading) == RemoteOf(l', reading)
    ensures MapsTiePoint(l, reading.double, t) <==> MapsTiePoint(l', reading.double, t)
  {
    assert l == l'.(bytesRead := l.bytesRead);
  }

  /** Preparation does not depend on how many bytes the layout took. */
  lemma SamePreparation(content: seq<u8>, kind: RasterKind, reading: Reading, box: Box, l: Layout, l': Layout,
                        p: Prepared)
    requires l.(bytesRead := 0) == l'.(bytesRead := 0) && PreparesFrom(content, kind, reading, box, l', p)
    ensures PreparesFrom(content, kind, reading, box, l, p)
  {
    SameRaster(reading, l, l', p.transform);
  }

  lemma OnePreparation(content: seq<u8>, kind: RasterKind, reading: Reading, box: Box, l: Layout, p: Prepared,
                       q: Prepared)
    requires PreparesFrom(content, kind, reading, box, l, p) && PreparesFrom(content, kind, reading, box, l, q)
    ensures p.(headerBytes := 0) == q.(headerBytes := 0)
  {
    TransformMapsTiePoint(l, reading.double, p.transform);
    TransformMapsTiePoint(l, reading.double, q.transform);
    PlannedUnique(content, p.remote, p.window, p.plan, p.tiles, q.plan, q.tiles);
  }

  lemma SameLayout(content: seq<u8>, kind: RasterKind, reading: Reading, box: Box, l: Layout, p: Prepared)
    requires HoldsLayout(content, reading.isUtf8, l) && Prepares(content, kind, reading, box, p)
    ensures PreparesFrom(content, kind, reading, box, l, p)
  {
    var l' :| HoldsLayout(content, reading.isUtf8, l') && PreparesFrom(content, kind, reading, box, l', p);
    LayoutUnique(content, reading.isUtf8, l, l');
    SamePreparation(content, kind, reading, box, l, l', p);
  }

  /** What is prepared is determined by the object and the box. */
  lemma PreparedUnique(content: seq<u8>, kind: RasterKind, reading: Reading, box: Box, p: Prepared, q: Prepared)
    requires Prepares(content, kind, reading, box, p) && Prepares(content, kind, reading, box, q)
    ensures p.(headerBytes := 0) == q.(headerBytes := 0)
  {
    var l :| HoldsLayout(content, reading.isUtf8, l) && PreparesFrom(content, kind, reading, box, l, p);
    SameLayout(content, kind, reading, box, l, q);
    OnePreparation(content, kind, reading, box, l, p, q);
  }

  lemma NothingPrepared(content: seq<u8>, kind: RasterKind, reading: Reading, box: Box, l: Layout)
    requires HoldsLayout(content, reading.isUtf8, l) && forall p :: !PreparesFrom(content, kind, reading, box, l, p)
    ensures forall p :: !Prepares(content, kind, reading, box, p)
  {
    forall p | Prepares(content, kind, reading, box, p) ensures false {
      SameLayout(content, kind, reading, box, l, p);
    }
  }

  /**
    `prepare_window`.  Unless the store is at fault, it prepares exactly what the object's
    layout and index give for the box, and fails exactly when they give nothing; the header
    bytes are all the bytes returned, and grow only with the planned tiles.
   */
  method PrepareWindow(store: Store, kind: RasterKind, reading: Reading, box: Box)
    returns (r: Result<Prepared, ReadError>)
    requires |store.content| <= U64_MAX
    modifies store
    ensures r.Success? ==>
              && Prepares(store.content, kind, reading, box, r.value)
              && r.value.headerBytes == store.returned - old(store.returned) <= MAX_LAYOUT_BYTES + 16 * |r.value.plan|
    ensures r.Failure? && !r.error.IsFault() ==> forall p :: !Prepares(store.content, kind, reading, box, p)
    ensures store.faults >= old(store.faults) && (r.Failure? && r.error.IsFault() ==> store.faults > old(store.faults))
  {
    var layout := ReadRemoteLayout(store, reading.isUtf8);
    if layout.Failure? {
      return Failure(ReadError.Layout(layout.error));
    }
    var l := layout.value;
    LayoutFitsMetadata(store.content, reading, l);
    if !FitsMetadata(l) {
      return Failure(ReadError.Layout(LayoutError.UnsupportedLayout));
    }
    ghost var header := store.returned;
    r := PrepareFrom(store, kind, reading, box, l);
    if r.Failure? {
      if !r.error.IsFault() {
        NothingPrepared(store.content, kind, reading, box, l);
      }
    } else {
      assert PreparesFrom(store.content, kind, reading, box, l, r.value);
      r := Success(r.value.(headerBytes := l.bytesRead + r.value.headerBytes));
      assert PreparesFrom(store.content, kind, reading, box, l, r.value);
    }
  }

  /** Everything after the layout: validate it, find the window, plan and resolve its tiles. */
  method PrepareFrom(store: Store, kind: RasterKind, reading: Reading, box: Box, l: Layout)
    returns (r: Result<Prepared, ReadError>)
    requires |store.content| <= U64_MAX && FitsMetadata(l)
    requires RemoteOf(l, reading).WellFormed(|store.content|)
    modifies store
    ensures r.Success? ==>
              && PreparesFrom(store.content, kind, reading, box, l, r.value)
              && r.value.headerBytes == store.returned - old(store.returned) <= 16 * |r.value.plan|
    ensures r.Failure? && !r.error.IsFault() ==> forall p :: !PreparesFrom(store.content, kind, reading, box, l, p)
    ensures store.faults >= old(store.faults) && (r.Failure? && r.error.IsFault() ==> store.faults > old(store.faults))
  {
    var remote := RemoteOf(l, reading);
    var valid := ValidateMeritLayout(remote, kind);
    if !valid {
      return Failure(ReadError.UnsupportedLayout);
    }
    var transform := TransformFrom(l, reading.double);
    forall t ensures MapsTiePoint(l, reading.double, t) <==> t == transform {
      TransformMapsTiePoint(l, reading.double, t);
    }
    var grid := remote.metadata.grid;
    var window := FromBox(transform, grid.width, grid.height, box);
    if window.Failure? {
      return Failure(Outside(window.error));
    }
    WindowIsInside(transform, grid, box, window.value);
    var planned := PlanTiles(store, remote, kind, window.value);
    if planned.Failure? {
      return Failure(planned.error);
    }
    var (plan, resolved) := planned.value;
    return Success(Prepared(remote, transform, window.value, plan, resolved.tiles, resolved.indexBytes));
  }

  lemma WindowIsInside(t: Transform, g: Grid, box: Box, w: Window)
    requires g.WellFormed() && FromBox(t, g.width, g.height, box) == Success(w)
    ensures w.Inside(g)
  {
  }

  // ---- The whole read -----------------------------------------------------------------

  /** The prepared tiles may be fetched, and decode to `data`. */
  ghost predicate Answers(content: seq<u8>, kind: RasterKind, reading: Reading, fp: FloatCast, inflate: Inflate,
                          box: Box, p: Prepared, data: WindowData)
  {
    && Prepares(content, kind, reading, box, p)
    && Fetches(content, p.remote, fp, inflate, p.window, p.plan, p.tiles, data)
  }

  /** `data` is what the object holds for the box, as window `w`. */
  ghost predicate BoxReadable(content: seq<u8>, kind: RasterKind, reading: Reading, fp: FloatCast, inflate: Inflate,
                              box: Box, w: Window, data: WindowData)
  {
    exists p: Prepared :: p.window == w && Answers(content, kind, reading, fp, inflate, box, p, data)
  }

  /**
    The whole read.  Unless the store is at fault, it returns the window of the box and what the
    object holds for it, and it fails exactly when the object holds nothing readable for the box.
   */
  method ReadWindow(store: Store, kind: RasterKind, reading: Reading, fp: FloatCast, inflate: Inflate, box: Box)
    returns (r: Result<(Window, WindowData), ReadError>)
    requires |store.content| <= U64_MAX
    modifies store
    ensures r.Success? ==> BoxReadable(store.content, kind, reading, fp, inflate, box, r.value.0, r.value.1)
    ensures r.Failure? && !r.error.IsFault() ==>
              forall w, data :: !BoxReadable(store.content, kind, reading, fp, inflate, box, w, data)
    ensures store.faults >= old(store.faults) && (r.Failure? && r.error.IsFault() ==> store.faults > old(store.faults))
  {
    var prepared := PrepareWindow(store, kind, reading, box);
    if prepared.Failure? {
      return Failure(prepared.error);
    }
    var p := prepared.value;
    PreparedIsCovered(store.content, kind, reading, box, p);
    var data := FetchWindow(store, p.remote, fp, inflate, p.window, p.plan, p.tiles);
    if data.Failure? {
      if !data.error.IsFault() {
        NothingAnswers(store.content, kind, reading, fp, inflate, box, p);
      }
      return Failure(data.error);
    }
    assert Answers(store.content, kind, reading, fp, inflate, box, p, data.value);
    return Success((p.window, data.value));
  }

  lemma PreparedIsCovered(content: seq<u8>, kind: RasterKind, reading: Reading, box: Box, p: Prepared)
    requires Prepares(content, kind, reading, box, p)
    ensures TilesCovered(p.remote.metadata, p.window, p.plan) && |p.tiles| == |p.plan|
  {
    var l :| HoldsLayout(content, reading.isUtf8, l) && PreparesFrom(content, kind, reading, box, l, p);
    WindowIsInside(p.transform, p.remote.metadata.grid, box, p.window);
    ValidatedPlanIsIndexed(p.remote, kind, p.window, p.plan);
  }

  lemma NothingAnswers(content: seq<u8>, kind: RasterKind, reading: Reading, fp: FloatCast, inflate: Inflate,
                       box: Box, p: Prepared)
    requires Prepares(content, kind, reading, box, p)
    requires forall data :: !Fetches(content, p.remote, fp, inflate, p.window, p.plan, p.tiles, data)
    ensures forall w, data :: !BoxReadable(content, kind, reading, fp, inflate, box, w, data)
  {
    forall q, data | Answers(content, kind, reading, fp, inflate, box, q, data) ensures false {
      PreparedUnique(content, kind, reading, box, p, q);
    }
  }
}
