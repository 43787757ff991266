# Verified model of the watershed engine

A Dafny model of the parts of the engine where a mistake would be silent: the hand-written
reader of windows of remote cloud-optimized GeoTIFFs, the two caches, Strahler ordering and
reach truncation, the opening and traversal of a dataset, the choice of an outlet, and the
request counters.  `dafny verify dfyconfig.toml` checks all of it.

How the program's notions appear in the model:

- A machine integer is a subset type of `int` (`Prelude`).  Where the program computes
  unchecked, the result goes through a variable of type `u32` or `u64`, so the verifier shows
  that it stays in range; where it can leave the range, the wrap-around is written out.
- The remote object is a sequence of bytes behind `ObjectStore.Store`.  A read may fail or
  come back short, which counts as a fault of the store, and its precondition is that the range
  lies inside the object: no request of the reader leaves the object, whatever bytes it holds.
- Code that works in place is a method over an array or a class, proved against a function of
  the old contents.  What is claimed of that function stands in lemmas.
- A concurrent protocol is a state machine whose runs are lists of events (the raster cache),
  or a class whose methods let other readers or recorders act between any two steps through a
  method `Others` (the range cache and the counters).  The range cache also keeps the turns that
  its readers took, so that what is proved of every run holds of it; the counters keep apart what
  the other recorders added, so that what one call adds is stated exactly.
- Rasters of 32-bit samples are rasters of bit patterns.  Geometry, weights, distances and
  areas are reals.  Inflation, the integer-to-float conversion, the real number of a double's
  bits, the parsing of the nodata text, the test for valid text and the hash of a remote path are
  parameters.

Layout: `Prelude`, `TileGrid`, `Predictors`, `WindowDecode`, `WindowAssembly`, `ObjectStore`,
`TiffDirectory`, `TileIndex`, `RemoteLayout`, `BoxWindow`, `RemoteWindow`, `PreparedWindow`,
`StoredRaster` (the window reader: `PreparedWindow` is the whole read from object and box to the
buffer, `StoredRaster` what it gives for a file that stores a raster); `WindowKey`,
`RasterCache`, `ParquetCache` (caches); `Upstream`, `Dataset`, `RangeSplit` (opening and
traversal); `Strahler`, `StrahlerWalk`, `Reach`, `ReachTips` (web front end); `SnapResolver`,
`PipResolver` (outlets); `Telemetry` (counters).

What the proofs found out about the program:

- A window file that is empty when a run starts is never replaced: the lookup treats it as
  absent, the fetch succeeds, publishing declines to overwrite it, and the caller is handed the
  empty file.  `RasterCache.ServedFilesAreComplete` shows that this is the only way.
- A waiter of the raster cache that registers after the notification was sent waits forever
  (`RasterCache.WakeupCanBeLost`).  It can be woken exactly while some task has yet to notify for
  its fetch (`RasterCache.WaiterCanBeWoken`).
- A BigTIFF index of two LONGs fits its entry, is accepted, and is then refused at every index as
  not scalar (`TileIndex.TwoLongsAreRefused`).  No other accepted index is refused
  (`TileIndex.LookedUpUnlessTwoLongs`).  A stored raster without bytes beside an inline LONG can
  be read, wherever the ceilings allow it, exactly when its index is not stored that way
  (`StoredRaster.BoxOfStoredBytesIsReadable`).
- A BigTIFF index of one LONG is read as all eight bytes of its entry's value field: bytes beside
  the LONG, which the scalar tags refuse, change the range silently
  (`TileIndex.PaddedEntryIsMisread`).  The range read is the range described exactly when neither
  index entry has such bytes (`TileIndex.MisreadWhenPadded`, `TileIndex.ReadsWhatIsDescribed`).
- The split of an artifact into parallel ranges wraps around for some sizes within sixteen bytes
  of 2^64; `RangeSplit.SplitIsPartition` gives the exact condition.
- The chunks of a parallel artifact read are joined without comparing their lengths, so a short
  answer gives a shorter artifact (`RangeSplit.ShortAnswerIsJoined`); the result is the artifact
  exactly when the split is a partition and every answer came in full
  (`RangeSplit.ReadRemoteArtifact`).
- Counter totals disagree with their per-path counters once the latter add up past 64 bits
  (`Telemetry.HalfRangePathsDisagree`), and only then (`Telemetry.ShownTotalIsSum`).
- Every part of a reach is pinned to the outlet, so a part away from the outlet gains a segment
  that is not reach (`ReachTips.SplitReachGetsSpur`); `ReachTips.TruncatedGeometryIsOnReach` gives the
  exact condition.

Where the code and its comments disagree the model follows the code: the comment in
`parquet_cache.rs` says that chunks over 4 GiB go uncached, while the code gives them the
largest weight and caches them like any other.

## Model

| member | source | states |
|---|---|---|
| TileGrid.ForWindow | crates/core/src/cog.rs:342-389 | for every window, the row-major list of tiles between its corner tiles, or the first of the four limits it exceeds |
| TileGrid.PlanIsExact | crates/core/src/cog.rs:342-389 | the plan of a window inside the raster is strictly increasing, lists exactly the tiles that store one of its pixels, and stays below the number of tiles |
| TileGrid.PlannedColRow | crates/core/src/cog.rs:1887-1890 | taking a planned index apart by division gives back the tile column and row it was made of, inside the grid |
| TileGrid.CrossedAxesMeaning | crates/core/src/cog.rs:195-221 | an axis is reported crossed exactly when two window pixels along it lie in different tiles |
| TileGrid.CopyAxis | crates/core/src/cog.rs:1892-1914 | the stretch to copy along one axis is nonempty, inside tile and window, and holds exactly the window positions the tile stores; no 32-bit step overflows |
| TileGrid.TileCopySpan | crates/core/src/cog.rs:1892-1914 | the rectangle to copy holds exactly the window pixels that the tile stores |
| Predictors.ByteDifferencingInverse | crates/core/src/cog.rs:1688-1694 | per-row running sums of bytes and per-row differencing undo each other in both orders (TIFF 6.0, section 14) |
| Predictors.UndoByteDifferences | crates/core/src/cog.rs:1688-1694 | the in-place loops leave every row replaced by its running byte sums |
| Predictors.UndoneByteIsSum | crates/core/src/cog.rs:1688-1694 | an undone byte is the sum of the stored differences of its row so far, modulo 256 |
| Predictors.WordDifferencingInverse | crates/core/src/cog.rs:1695-1708 | the same for wrapping 32-bit words, in both orders |
| Predictors.UndoWordDifferences | crates/core/src/cog.rs:1695-1708 | the in-place loops over little-endian words leave every row replaced by its running word sums |
| Predictors.UndoneWordIsSum | crates/core/src/cog.rs:1695-1708 | an undone word is the sum of the stored differences of its row so far, modulo 2^32 |
| Predictors.WordsOfBytes | crates/core/src/cog.rs:1700-1706 | reading back little-endian words gives the words that were stored |
| Predictors.PlanesInverse | crates/core/src/cog.rs:1754-1773 | gathering big-endian words from the four byte planes of each padded row and splitting words into planes undo each other in both orders (Adobe Technical Note 3) |
| WindowDecode.BytePredictorRoundTrip | crates/core/src/cog.rs:1686-1694 | decoding an encoded byte tile under predictor 1 or 2 gives the samples that were encoded |
| WindowDecode.WordPredictorRoundTrip | crates/core/src/cog.rs:1686-1773 | decoding an encoded 32-bit tile under predictor 1, 2 or 3 gives the samples that were encoded |
| WindowDecode.DecodeOwnedChunk | crates/core/src/cog.rs:1636-1797 | the in-place decoding of a chunk is the inverse predictor followed by clipping to the live samples and, for integers, the conversion to floats, with the program's errors in the program's order |
| WindowDecode.ConvertedSample | crates/core/src/cog.rs:2160-2170 | an integer sample is delivered as NaN when the number its word spells in two's complement is the declared nodata, and as that number's float otherwise |
| WindowDecode.DeliveredUnique | crates/core/src/cog.rs:2160-2170 | a word spells one number, so what is delivered for it is determined |
| WindowDecode.GatherAt | crates/core/src/cog.rs:1754-1773 | each gathered word is made of the four bytes at its column of the four planes of its row, the most significant byte first |
| WindowAssembly.CopyTile | crates/core/src/cog.rs:1845-1885 | copying a tile row by row overwrites exactly the cells of the buffer whose pixels the tile stores, each with that pixel's sample |
| WindowAssembly.CopyOffsets | crates/core/src/cog.rs:1845-1885 | no offset of a row copy leaves 32 bits and no slice leaves its buffer, under the allocation and decoded-chunk ceilings |
| WindowAssembly.AssembledCell | crates/core/src/cog.rs:1799-1843 | a cell ends up with the sample of the last pasted tile that stores its pixel |
| WindowAssembly.UnwrittenCell | crates/core/src/cog.rs:1799-1843 | a cell that no pasted tile stores keeps the declared nodata value |
| WindowAssembly.UnwrittenShowsNodata | crates/core/src/cog.rs:1799-1843 | in a decoded window such a cell shows the declared nodata as a byte or as float bits, and NaN where floats declare none |
| WindowAssembly.DecodedSample | crates/core/src/cog.rs:1781-1794 | each live sample of a decoded 32-bit tile is what is delivered for the word that the predictor leaves at its row and column |
| WindowAssembly.DecodeWindow | crates/core/src/cog.rs:1799-1843 | for every list of chunks: the pasted window, or the first error met, in the program's order |
| WindowAssembly.AssembledIsCrop | crates/core/src/cog.rs:2137-2144 | pasting exactly the planned tiles leaves the plain crop of the raster: no prefill survives, no tile overwrites another's cells |
| WindowAssembly.ByteReassemblyIsCrop | crates/core/src/cog.rs:1799-1914 | for every byte raster, tile size, padding, supported predictor and window inside the raster, decoding the planned tiles returns the crop |
| WindowAssembly.WordReassemblyIsCrop | crates/core/src/cog.rs:1799-1914 | the same for 32-bit rasters: floats bit for bit, integers converted, and NaN for an integer that equals the declared nodata |
| WindowAssembly.WrittenTilesAreRead | crates/core/src/cog.rs:1799-1914 | reading back what a writer of tiles stored gives the crop, for every raster, supported predictor and plannable window within the size limits, with no assumption on the chunks |
| ObjectStore.Store.GetRange | crates/core/src/cog.rs:793-880 | what a range read may return, and that a failed or short answer is counted as a fault; its precondition makes every call site show that the range lies inside the object |
| TiffDirectory.ReadPrintedEntry | crates/core/src/cog.rs:572-596 | parsing a printed entry gives the entry back, in both layouts and for every supported field type |
| TiffDirectory.PrintReadEntry | crates/core/src/cog.rs:572-596 | printing what was parsed gives the bytes back |
| TiffDirectory.AcceptedEntry | crates/core/src/cog.rs:559-596 | an entry is accepted exactly when its field type is one of the six known ones |
| TiffDirectory.LittleEndian | crates/core/src/cog.rs:572-596 | the numbers of the file are read with the least significant byte first, at every width |
| TiffDirectory.PrintEntriesInjective | crates/core/src/cog.rs:2641-2665 | two lists of entries with the same printing are the same list |
| TiffDirectory.ParseEntries | crates/core/src/cog.rs:862-880 | parsing a block returns the one list of readable entries that prints to it, and fails exactly when there is none |
| TiffDirectory.DirectoryIsSpelled | crates/core/src/cog.rs:838-880 | the directory at its offset is a count of two bytes and entries of twelve, or of eight and twenty in BigTIFF, inside the file |
| TiffDirectory.HeaderRoundTrip | crates/core/src/cog.rs:806-837 | a header in either layout is recognized with its directory offset |
| TiffDirectory.ReadDirectory | crates/core/src/cog.rs:793-880 | unless the store is at fault, reading succeeds exactly on files that hold a directory within the limits, and returns that directory |
| TiffDirectory.DirectoryUnique | crates/core/src/cog.rs:793-880 | a file holds at most one directory: layout, offset and entries are determined by its bytes |
| RemoteLayout.ReadRemoteLayout | crates/core/src/cog.rs:793-976 | unless the store is at fault, a layout is returned exactly when the directory of the file describes one, and it says what the first entry of each tag spells, tag by tag; the bytes counted are the bytes returned and are bounded by a constant |
| RemoteLayout.ScalarIsSpelled | crates/core/src/cog.rs:609-633 | a scalar tag is accepted exactly when its first entry is one SHORT or LONG with zero bytes beside it, with the value that its own two or four bytes spell |
| RemoteLayout.ExtentByTag | crates/core/src/cog.rs:886-893 | width and height are the values of their tags, neither of them zero |
| RemoteLayout.DescriptorsAreNamed | crates/core/src/cog.rs:902-914 | the offsets are the array that the first entry of tag 324 stores, the byte counts that of tag 325, and both have the same length |
| RemoteLayout.ScalarsAreSpelled | crates/core/src/cog.rs:890-960 | tile sizes, samples, predictor and sample type are accepted exactly when the bytes of their entries spell them, in whatever order the tags are looked up |
| RemoteLayout.SampleTypeIsItsFormat | crates/core/src/cog.rs:939-952 | a sample type is the one with its own number of bits and its own format code |
| RemoteLayout.InlineText | crates/core/src/cog.rs:635-661 | inline text is the first bytes of the value field as the file holds it |
| RemoteLayout.ScalarsAreTheirTags | crates/core/src/cog.rs:890-960 | the tile and sample fields are the values of their tags, for one grayscale sample in one plane, in whatever order the tags are looked up |
| RemoteLayout.FieldsMeaning | crates/core/src/cog.rs:890-960 | the entries say a layout, each tag by its own first entry, exactly when it fits the fields that the program computes from them |
| RemoteLayout.LayoutUnique | crates/core/src/cog.rs:793-976 | an object holds at most one layout |
| RemoteLayout.RemoteAscii | crates/core/src/cog.rs:635-692 | the text of a tag, inline or out of line, without its trailing zeros, never more bytes than its ceiling; unless the store is at fault, it fails exactly when the tag holds no such text |
| TileIndex.DescriptorEntryRange | crates/core/src/cog.rs:1062-1088 | the entry of an index lies inside the descriptor's array and inside the object; it is refused exactly when the descriptor holds no entry for the index |
| TileIndex.ArrayIsAccepted | crates/core/src/cog.rs:731-777 | an index entry is accepted exactly as the array it stores, and exactly when it names LONG or LONG8 values, at least one, in its value field or inside the object |
| TileIndex.LookedUpUnlessTwoLongs | crates/core/src/cog.rs:731-777 | an accepted index entry is looked up at every index below its count exactly when it is not a BigTIFF entry of two LONGs |
| TileIndex.TwoLongsAreRefused | crates/core/src/cog.rs:731-777 | an input for which it is not: accepted, then refused at both indices |
| TileIndex.InlineArrayIsPrinted | crates/core/src/cog.rs:731-777 | an index array stored in its entry is the first bytes of the value field in the file |
| TileIndex.ReadValueIsIndexValue | crates/core/src/cog.rs:1107-1143 | the reader takes the element of the index array, its own four or eight bytes in the file, exactly when an inline LONG has no other bytes beside it |
| TileIndex.MisreadWhenPadded | crates/core/src/cog.rs:731-777 | an accepted entry breaks that condition exactly when it is a BigTIFF entry of one LONG whose value field exceeds 32 bits |
| TileIndex.PaddedEntryIsMisread | crates/core/src/cog.rs:1107-1143 | an input for which another value is taken: the entry holds 16, the reader takes 4 GiB and 16 |
| TileIndex.ReadsWhatIsDescribed | crates/core/src/cog.rs:1107-1143 | the range read for a tile is the range its index describes exactly when neither inline LONG has other bytes beside it |
| TileIndex.TakeValue | crates/core/src/cog.rs:1107-1143 | the decoded value, inline or from the response at the cursor, is the element that the index array holds for the tile exactly when no inline LONG has other bytes beside it; the cursor moves on only if it was used; a response of another length is an error |
| TileIndex.EntryRanges | crates/core/src/cog.rs:1152-1180 | the requests of all planned tiles, each at the slot its storage combination gives it; fails exactly when some index is out of a descriptor |
| TileIndex.PairResponses | crates/core/src/cog.rs:1183-1222 | the shared cursor pairs every response with its tile and descriptor, for all four storage combinations |
| TileIndex.ResolveTilePlan | crates/core/src/cog.rs:1145-1230 | the k-th resolved tile is the k-th planned index with the range taken for it, which is the range the index describes exactly when no inline LONG has other bytes beside it; the total is the sum of the lengths; metadata bytes are those returned, at most sixteen for each planned tile; unless the store is at fault, it fails exactly when the plan cannot be resolved |
| TileIndex.ValidateCompressedRanges | crates/core/src/cog.rs:1453-1505 | succeeds exactly when every range is nonempty, inside the object and under its ceiling, and so is their sum; returns the ranges in order |
| RemoteWindow.ValidatedPlanIsIndexed | crates/core/src/cog.rs:1507-1576 | after layout validation every planned index is below the count of both descriptors, so the bound error of the index lookup cannot occur |
| RemoteWindow.ValidateMeritLayout | crates/core/src/cog.rs:1507-1576 | the checks of the layout pass exactly for 512 by 512 tiles, index arrays of one element a tile, and a sample type of the raster kind that the predictor can carry |
| RemoteWindow.FetchChunks | crates/core/src/cog.rs:1373-1405 | the fetched chunks are the whole ranges, in plan order; unless the store is at fault, it fails exactly when some range may not be fetched |
| RemoteWindow.PlanTiles | crates/core/src/cog.rs:1245-1268 | unless the store is at fault, the plan of the window with its resolved tiles is returned exactly when there is one; the index bytes are those returned, at most sixteen for each planned tile |
| RemoteWindow.FetchWindow | crates/core/src/cog.rs:1373-1451 | unless the store is at fault, the decoded window is returned exactly when the tiles may be fetched and decode to it |
| RemoteWindow.StoredBytesAreRead | crates/core/src/cog.rs:1373-1451 | whatever is read of an object that stores a flow-direction raster is the crop of that raster, if no inline LONG of its index has other bytes beside it |
| RemoteWindow.StoredWordsAreRead | crates/core/src/cog.rs:1373-1451 | the same for an accumulation raster, each pixel as its word is delivered: NaN for the declared nodata, the float of the number otherwise |
| RemoteWindow.StoredBytesAreReadable | crates/core/src/cog.rs:1373-1451 | such a raster can be read, wherever the ceilings allow it, exactly when no index array is stored in its entry as several values |
| RemoteWindow.StoredWordsAreReadable | crates/core/src/cog.rs:1373-1451 | the same for an accumulation raster |
| BoxWindow.BoxIsCovered | crates/core/src/cog.rs:293-326 | the window lies inside the raster, holds every pixel whose cell meets the box and only pixels within one of it; the error means that no pixel meets the box |
| BoxWindow.OnlyNorthUp | crates/core/src/cog.rs:293-326 | only rasters whose columns run east and whose rows run south have windows |
| PreparedWindow.PrepareWindow | crates/core/src/cog.rs:1233-1275 | unless the store is at fault, exactly what the layout and the index of the object give for the box is prepared; the header bytes are all the bytes returned, at most a constant and sixteen for each planned tile |
| PreparedWindow.PreparedUnique | crates/core/src/cog.rs:1233-1275 | what is prepared for a box is determined by the bytes of the object |
| PreparedWindow.TransformMapsTiePoint | crates/core/src/cog.rs:1030-1050 | a transform is the one prepared exactly when it maps the raster position of the tie point to its model position, with the two scales as the sizes of a pixel |
| PreparedWindow.ReadWindow | crates/core/src/cog.rs:1233-1451 | layout, box, plan, index, fetch and decode together: unless the store is at fault, the result is what the object holds for the box, and failure means that it holds nothing readable for it |
| StoredRaster.HeaderOfLayout | crates/core/src/cog.rs:890-1050 | grid, sample type, predictor, index arrays and transform of the layout that is read are those that the entries of the file spell, tag by tag |
| StoredRaster.TiePointIsMapped | crates/core/src/cog.rs:1030-1050 | the prepared transform maps the first two numbers of the file at tag 33922 to its fourth and fifth, with the first two at tag 33550 as pixel sizes |
| StoredRaster.NamedValueIsIndexValue | crates/core/src/cog.rs:731-777 | an element of an accepted index array is the little-endian number at its place in the bytes that the entry names |
| StoredRaster.BoxOfStoredBytesIsCrop | crates/core/src/cog.rs:1233-1451 | from the bytes of the file and a box: whatever is read of a stored flow-direction raster shows, pixel by pixel, that raster in a window that holds every pixel meeting the box and only pixels within one of it, where the box is placed by the tie point and scale that stand in the file and the tiles are those that the arrays of tags 324 and 325 name |
| StoredRaster.BoxOfStoredWordsIsCrop | crates/core/src/cog.rs:1233-1451 | the same for an accumulation raster: floats bit for bit, integers converted, and NaN for an integer that equals the declared nodata |
| StoredRaster.BoxOfStoredBytesIsReadable | crates/core/src/cog.rs:1233-1451 | a stored flow-direction raster without bytes beside an inline LONG is read as that crop, wherever the ceilings allow it, exactly when neither index entry holds two LONGs |
| StoredRaster.BoxOfStoredWordsIsReadable | crates/core/src/cog.rs:1233-1451 | the same for an accumulation raster |
| WindowKey.DecimalRoundTrip | crates/core/src/cog.rs:328-333 | a decimal rendering determines its number |
| WindowKey.FileNameInjective | crates/core/src/raster_cache.rs:143-163 | a window file name determines the raster kind, the path hash and all four numbers of the window |
| WindowKey.NameOfWindow | crates/core/src/raster_cache.rs:143-163 | an example fixes the spelling of a window file name |
| RasterCache.RemoteRasterCache.Step | crates/core/src/raster_cache.rs:78-127 | each step of the wait, fetch and publish loop, on the shared map and the cache directory, is the step of the state machine |
| RasterCache.InFlightWhileFetching | crates/core/src/raster_cache.rs:78-127 | in every reachable state a path is in flight exactly while a task is fetching it, and one task at most is |
| RasterCache.RunKeepsFiles | crates/core/src/cog.rs:2239-2243 | a file that is there stays there unchanged in every continuation |
| RasterCache.FirstLook | crates/core/src/raster_cache.rs:64-75 | whatever the other tasks do first, a task whose first look finds a non-empty file returns it, one that finds none or an empty one goes to the map, and looking changes nothing |
| RasterCache.OwnWindowIsServed | crates/core/src/raster_cache.rs:143-163 | in every run, a task that returns a file returns the one fetched for its own request, given distinct path hashes and a clean start |
| RasterCache.ServedFilesAreComplete | crates/core/src/raster_cache.rs:252-261 | every run hands a task a non-empty file exactly when its path does not hold an empty file at the start |
| RasterCache.FailuresAreOwn | crates/core/src/raster_cache.rs:88-124 | a task fails only by a failure of its own steps: a failed fetch never fails those who wait for it |
| RasterCache.WaiterRetries | crates/core/src/raster_cache.rs:88-124 | in every run the end of a fetch wakes only waiters of its own path, and each, if it finds no file when it looks, goes back to the map and fetches itself unless another fetch of the path is listed when it gets there, whatever the other tasks do before the notification, before the look and before the way back |
| RasterCache.LateWaiterIsNeverWoken | crates/core/src/raster_cache.rs:81-88 | a waiter of a fetch that is over stays waiting in every continuation |
| RasterCache.WaiterCanBeWoken | crates/core/src/raster_cache.rs:78-127 | in every reachable state some continuation wakes a registered waiter exactly when some task has yet to notify for its fetch |
| RasterCache.WakeupCanBeLost | crates/core/src/raster_cache.rs:81-88 | some schedule of two tasks leaves one waiting forever |
| ParquetCache.EntriesAreRight | crates/core/src/parquet_cache.rs:130-144 | in every run of any number of readers, with any evictions, every entry holds its artifact's bytes |
| ParquetCache.LookupFound | crates/core/src/parquet_cache.rs:130-139 | a lookup anywhere in a run that the cache can have taken found its range exactly when the cache held it at that moment |
| ParquetCache.CountersAddUp | crates/core/src/parquet_cache.rs:130-139 | in every run the hits and misses of the cache are the sums of those its readers counted |
| ParquetCache.EveryRangeIsCountedOnce | crates/core/src/parquet_cache.rs:316-442 | when every reader has counted one hit or one miss for each range it requested, as its calls do, hits and misses together are the number of all ranges requested, in every run |
| ParquetCache.ParquetRowGroupCache.Get | crates/core/src/parquet_cache.rs:130-139 | a lookup returns the entry, which holds the artifact's bytes, and is followed by counting a hit exactly when there is one |
| ParquetCache.ParquetRowGroupCache.Others | crates/core/src/parquet_cache.rs:141-144 | what other readers do between two steps of a reader goes on from the turns taken so far, with turns like its own, and leaves this reader's turns, and with them its counts, alone |
| ParquetCache.CachingReader.GetBytes | crates/core/src/parquet_cache.rs:316-353 | a successful read returns the file's bytes; when the cache holds the range as the reader looks, the reader takes a lookup and a hit and the inner reader is not asked; otherwise it takes a lookup and a miss, asks once, and puts what it is given into the cache; it fails only when the inner reader does |
| ParquetCache.CachingReader.LookUp | crates/core/src/parquet_cache.rs:363-388 | after the first loop every range was looked up once, in order, and every position holds its bytes or is listed as missing, in step with its key and range |
| ParquetCache.CachingReader.CompletedIsCounted | crates/core/src/parquet_cache.rs:355-442 | the turns that such a call takes count every range once, as a hit or as a miss |
| ParquetCache.CachingReader.GetByteRanges | crates/core/src/parquet_cache.rs:355-442 | a successful call returns the file's bytes in request order; the inner reader is asked for exactly the ranges that the cache did not hold when they were looked up, each of them is then put into the cache, and every range is counted once; it fails only when the inner reader fails or answers with another number of ranges, and neither assembly error can occur |
| Telemetry.HttpStats.Record | crates/core/src/source_telemetry.rs:80-104 | apart from what other recorders add meanwhile, the total of the kind and the count of the path gain exactly the amount, and no other total or count gains anything; between calls every total is the sum of its paths and of what recorders in mid-call owe |
| Telemetry.CountIsEntry | crates/core/src/source_telemetry.rs:92-104 | the count of a path is what its one entry shows, and nothing when it has none |
| Telemetry.HttpStats.LoadEntries | crates/core/src/source_telemetry.rs:59-73 | the counters loaded one at a time lie between those at the start and those at the end, entry by entry |
| Telemetry.HttpStats.Snap | crates/core/src/source_telemetry.rs:59-79 | every shown counter lies between its values at start and end, and no path present at the start is missing; at any point among other recorders each unwrapped total is at least the sum of its paths; with nobody in mid-call and nothing counted meanwhile it is equal, exactly when that sum fits 64 bits |
| Telemetry.ShownTotalIsSum | crates/core/src/source_telemetry.rs:59-79 | the wrapped total equals the sum of the wrapped counters if and only if that sum fits 64 bits |
| Telemetry.HalfRangePathsDisagree | crates/core/src/source_telemetry.rs:59-79 | two paths whose shown counters do not add up to the shown total |
| RangeSplit.SplitIsPartition | crates/core/src/session.rs:1333-1344 | for every nonempty object and every concurrency up to the chunk target the ranges number at most the concurrency, and they are nonempty, contiguous and cover the object exactly when their last unclipped end fits 64 bits |
| RangeSplit.FewestRanges | crates/core/src/session.rs:1333-1344 | the ranges are the fewest of at most a chunk target each, capped by the concurrency, and the shortest of equal steps that cover the object |
| RangeSplit.LastRangeIsNotEmpty | crates/core/src/session.rs:1333-1344 | the bound that keeps the last range nonempty follows from the chunk target |
| RangeSplit.LargestObjectIsNotSplit | crates/core/src/session.rs:1333-1344 | a size for which the last range runs backwards |
| RangeSplit.ChunksRebuild | crates/core/src/session.rs:1269-1289 | joining ordered chunks of a partition gives the object exactly when nothing is short |
| RangeSplit.JoinedIsWhole | crates/core/src/session.rs:1269-1289 | answers to a partition join to the object exactly when every one of them came in full |
| RangeSplit.ShortAnswerIsJoined | crates/core/src/session.rs:1269-1289 | for every partition there are answers, all successful, that join to the object without its last byte |
| RangeSplit.ReadRemoteArtifact | crates/core/src/session.rs:1255-1290 | the parallel read returns the object exactly when the split is a partition and no answer failed or came back short; any result is the object if it is as long as the object, and is never longer |
| Upstream.CollectUpstream | crates/core/src/algo/upstream.rs:150-198 | exactly the units that drain to the terminal, once each, every unit after the one it was reached from; the two errors exactly when there is a reason |
| Dataset.ValidateGraphCatchments | crates/core/src/session.rs:1101-1208 | succeeds exactly when graph and catchments name the same units with the same levels and no edge crosses levels; returns the levels; an error is true of the units that it names |
| Dataset.TraverseUpstreamAtLevel | crates/core/src/engine.rs:665-694 | the upstream closure, all of it at the selected level, or an error that the graph explains |
| Dataset.ClosureStaysAtLevel | crates/core/src/session.rs:1101-1208 | after validation everything that drains to a terminal has a catchment at the terminal's level |
| Dataset.ValidatedTraversalSucceeds | crates/core/src/engine.rs:665-694 | after validation no error of the traversal has an explanation, so the level invariant cannot fail |
| Dataset.ProducePreMergeUnits | crates/core/src/engine.rs:709-793 | one record for each requested unit, in order, with the level, areas, outlet and geometry of its row; succeeds exactly when every unit has one at the level with a geometry |
| Dataset.ValidatedUnitsMaterialize | crates/core/src/engine.rs:709-793 | after validation the missing-row errors cannot occur: only a corrupt geometry stops the records |
| Strahler.StrahlerUnique | src/main.rs:896-910 | a drainage tree has exactly one ordering that follows the recursive Strahler rule |
| Strahler.OneTributary | src/main.rs:896-910 | a unit drains through one tributary of a confluence only |
| Strahler.OrderNeedsHeadwaters | src/main.rs:896-910 | a unit of order k has at least 2^(k-1) headwaters at or upstream of it |
| Strahler.OrderBoundedByHeadwaters | src/main.rs:896-910 | no order exceeds one plus the binary logarithm of the number of headwaters |
| StrahlerWalk.Combine | src/main.rs:899-910 | the counting loop over ordered tributaries gives the order the rule asks for; the fallback order is never used |
| StrahlerWalk.Enter | src/main.rs:887-895 | pushing a unit and its tributaries keeps the invariant of the walk, and no unit is entered twice |
| StrahlerWalk.Finish | src/main.rs:896-911 | ordering the unit on top keeps the invariant, and no unit is ordered twice |
| StrahlerWalk.StrahlerOrders | src/main.rs:875-913 | on every drainage tree the explicit-stack walk ends with the Strahler ordering of all units |
| StrahlerWalk.ListingDoesNotMatter | src/main.rs:875-884 | the orders do not depend on the order in which units are listed |
| StrahlerWalk.TraversalIsDrainageTree | crates/core/src/engine.rs:112-122 | every upstream traversal is a drainage tree, so the walk applies to all of them |
| Reach.ProjectionIsNearest | src/main.rs:480-491 | the clamped projection is a point of the segment, and no point of the segment is nearer |
| Reach.NearestSegment | src/main.rs:511-521 | the search returns the first segment at the least distance |
| Reach.NearestIsGlobal | src/main.rs:511-521 | no point of any segment is nearer to the outlet than the projection onto the chosen one |
| Reach.FindUpstreamEnd | src/main.rs:523-552 | the start counts as upstream exactly when some other reach ends at least as near to it as any ends to the line's end, or, without other reaches, by the two tests of the program |
| Reach.AloneStartsUpstream | src/main.rs:540-552 | without other reaches the truncated line starts at the first vertex when the outlet is nearest to a later segment or no nearer to the start than to the end, and at the last vertex otherwise |
| Reach.TruncateLine | src/main.rs:499-571 | the result is a prefix of the vertices, or a suffix reversed, up to the nearest segment, and then exactly the outlet |
| Reach.TruncateTerminalReach | src/main.rs:499-593 | the same for every geometry: non-empty lines one by one, a single one as a plain line, other geometries unchanged |
| Reach.TruncatedReachIsOnReach | src/main.rs:499-571 | when the outlet lies on the line, every point of the truncated line does |
| Reach.TruncatedLineStaysOnLine | src/main.rs:499-571 | and only then |
| ReachTips.CoveredIffNoGap | src/main.rs:572-593 | the way from one point to another is covered by finitely many segments exactly when it leaves no gap, at its start or where a segment along it ends |
| ReachTips.TruncatedGeometryIsOnReach | src/main.rs:572-593 | a truncated geometry, of one part or many, lies on the reach exactly when the segments of the reach leave no gap between the last vertex kept of each part and the outlet, which finitely many comparisons decide |
| ReachTips.OutletOnEveryPart | src/main.rs:572-593 | it does when the outlet lies on every part that has a segment |
| ReachTips.SplitReachGetsSpur | src/main.rs:572-593 | an input for which it does not: two parts, the outlet on the first |
| SnapResolver.OrderIsDominance | crates/core/src/resolver.rs:488-510 | the comparison is weight, then mainstem, then distance where it counts, then identifier; it is total on distinct identifiers |
| SnapResolver.RankWins | crates/core/src/resolver.rs:463-486 | the ranked candidate lies in the strategy's band and dominates everything else in it |
| SnapResolver.RankIgnoresOrder | crates/core/src/resolver.rs:463-486 | the winner depends on the set of candidates, not on their order |
| SnapResolver.WinnerIsReported | crates/core/src/resolver.rs:541-664 | the ranked candidate of the scores is the target that wins among the targets themselves |
| SnapResolver.ResolveViaSnapStore | crates/core/src/resolver.rs:541-664 | the returned candidate has the identifier, unit, weight, mainstem flag and decoded distance of a qualifying target that lies in the strategy's band of their distances and that every other one there loses to, on the targets' own fields; success exactly when there is one; the corrupt-geometry error exactly when the search box holds targets and every one of them is at the level and fails to decode |
| SnapResolver.ResolutionIgnoresOrder | crates/core/src/resolver.rs:541-664 | what may be reported is one candidate, whatever the order in which the targets are read |
| PipResolver.TieBreakDecides | crates/core/src/resolver.rs:784-816 | the reported tie-break is the rule that separates the winner from all other hits together |
| PipResolver.WinnerIgnoresOrder | crates/core/src/resolver.rs:784-816 | winner and tie-break depend on the set of hits, not on their order |
| PipResolver.ResolveViaPip | crates/core/src/resolver.rs:672-830 | the best hit by containment, or by touching when nothing contains the outlet; success exactly when there is a hit; the two errors told apart exactly |
| PipResolver.ResolutionIgnoresOrder | crates/core/src/resolver.rs:672-830 | winner and tie-break depend on the set of candidates read |

## Left out

- HTTP server, query parsing, JSON output, environment variables and the command line: plumbing.
- Object-store clients, retries, the runtime and telemetry spans: foreign calls; a failed or short read stands for all of them.
- Zlib inflation, Parquet and Arrow decoding, WKB, and writing the cached GeoTIFF: parameters or inputs.
- Polygon dissolve and cleaning, overlay clipping, projections and geodesic measures: library code.
- Floating point: geometry, weights and distances are reals, so rounding, NaN, infinities other than the start values of the minimum searches, and the saturating casts of `from_bbox` are not modelled.
- The parsing of the nodata text, and of its default, into four numeric readings: the readings are part of the metadata.
- 32-bit targets: `usize` is taken to hold 64 bits.
- WindowAssembly.CopyTile: one generic method stands for the byte and the float version, which differ only in their element type.
- WindowAssembly.DecodeWindow: the buffer's own allocation cannot fail, and a product over the ceiling and a product that overflows give the same error.
- PreparedWindow.ReadWindow: ends with the decoded buffer; writing the GeoTIFF and publishing it are left to the raster cache.
- RasterCache.RemoteRasterCache.Step: cancelled tasks, the shared fabric and version directories of a cache path, and the fetched file's bytes beyond being a function of the request are not modelled.
- RasterCache.OwnWindowIsServed: assumes distinct hashes of the remote paths in use; the 64-bit hash itself is not modelled.
- ParquetCache.ParquetRowGroupCache.Insert: the capacity, weights and admission policy of the cache are not modelled, because eviction at any moment covers them; hit and miss counters do not wrap.
- ParquetCache.CachingReader.GetByteRanges: reads of a file that changes under one identity are not modelled.
- Telemetry.HttpStats.Snap: memory orders weaker than sequential consistency are not modelled.
- RangeSplit.ReadRemoteArtifact: the single read of small artifacts is left out, and the requests are made one after another although they may overlap.
- Upstream.CollectUpstream: the order among the upstream neighbours of one unit is not stated.
- PipResolver.ResolveViaPip: the library sort is modelled by a stable insertion sort on values; the sort of the program works in place.
- The footer cache, the validation sidecar, the radius ladder, snap reference validation and error classification: a reading settles them.
