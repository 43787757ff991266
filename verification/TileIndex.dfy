/**
  The tile index of a remote TIFF: descriptors of TileOffsets and TileByteCounts, fetching
  only the entries of planned tiles, and the ranges of the compressed tiles themselves.
 */
module TileIndex {
  import opened Prelude
  import opened TiffDirectory
  import opened ObjectStore

  const MAX_COMPRESSED_CHUNK_BYTES: int := 16_777_216
  const MAX_COVERED_CHUNK_BYTES: int := 1_073_741_824

  datatype Storage = InlineScalar(value: u64) | OutOfLine(offset: u64)

  datatype Descriptor = Descriptor(fieldType: u16, elementWidth: u64, count: u64, storage: Storage) {
    predicate WellFormed(size: nat) {
      && count > 0
      && ((fieldType == 4 && elementWidth == 4) || (fieldType == 16 && elementWidth == 8))
      && (storage.OutOfLine? ==> storage.offset + Extent() <= size)
    }

    /** Bytes of the whole array. */
    function Extent(): int {
      if elementWidth == 4 then 4 * count else 8 * count
    }

    /** An array stored in the entry itself is read only when it is a single value. */
    predicate Scalar() {
      storage.InlineScalar? ==> count == 1
    }

    /** An index the reader can look up. */
    predicate Holds(index: nat) {
      index < count && Scalar()
    }

    /** A single LONG stored in the entry itself is followed by zero bytes only. */
    predicate Unpadded() {
      storage.InlineScalar? && elementWidth == 4 && count == 1 ==> storage.value <= U32_MAX
    }
  }

  /** `remote_descriptor`: the index array of an entry, checked against the object before any of it is read. */
  function RemoteDescriptor(f: Format, e: Entry, size: nat): (r: Result<Descriptor, LayoutError>)
    requires size <= U64_MAX
    ensures r.Success? ==> r.value.WellFormed(size) && r.value.count == e.count && r.value.fieldType == e.fieldType
    ensures r.Success? ==>
              r.value.storage == if r.value.Extent() <= f.InlineWidth() then InlineScalar(e.value)
                  else OutOfLine(e.value)
    ensures r.Failure? ==> r.error == OutOfObject || r.error == BadValue(e.tag)
  {
    if e.count == 0 || (e.fieldType != 4 && e.fieldType != 16) then Failure(BadValue(e.tag))
    else
      var width := FieldWidth(e.fieldType).value;
      var bytes := width * e.count;
      if bytes > U64_MAX then Failure(BadValue(e.tag))
      else if bytes <= f.InlineWidth() then Success(Descriptor(e.fieldType, width, e.count, InlineScalar(e.value)))
      else if e.value + bytes > size then Failure(OutOfObject)
      else Success(Descriptor(e.fieldType, width, e.count, OutOfLine(e.value)))
  }

  /** The array that an entry stores: LONG or LONG8, in the entry itself when it fits, or inside the object. */
  predicate StoresArray(f: Format, e: Entry, size: nat, d: Descriptor) {
    && e.count > 0 && d.count == e.count && d.fieldType == e.fieldType
    && ((e.fieldType == 4 && d.elementWidth == 4) || (e.fieldType == 16 && d.elementWidth == 8))
    && if d.Extent() <= f.InlineWidth() then d.storage == InlineScalar(e.value)
       else d.storage == OutOfLine(e.value) && e.value + d.Extent() <= size
  }

  /** An index entry is accepted exactly as the array it stores, and whenever it stores one. */
  lemma ArrayIsAccepted(f: Format, e: Entry, size: nat, d: Descriptor)
    requires size <= U64_MAX
    ensures RemoteDescriptor(f, e, size) == Success(d) <==> StoresArray(f, e, size, d)
    ensures RemoteDescriptor(f, e, size).Success? <==>
              && e.count > 0 && (e.fieldType == 4 || e.fieldType == 16)
              && var extent := if e.fieldType == 4 then 4 * e.count else 8 * e.count;
                 extent <= f.InlineWidth() || e.value + extent <= size
  {
  }

  datatype IndexError =
    | IncompleteResponse
    | ExceedsCount(index: u32)
    | InlineNotScalar
    | EntryOutOfObject
    | ChunkEndOverflow
    | CoveredBytesOverflow
    | InvalidChunkRange(index: u32)
    | ChunkTooLarge(index: u32)
    | CoveredBytesTooLarge
    | ChunkOutOfObject(index: u32)

  function EntryStart(d: Descriptor, index: nat): int
    requires d.storage.OutOfLine?
  {
    d.storage.offset + (if d.elementWidth == 4 then 4 * index else 8 * index)
  }

  /** `descriptor_entry_range`. */
  function DescriptorEntryRange(d: Descriptor, index: u32, size: nat): (r: Result<Option<Range>, IndexError>)
    requires size <= U64_MAX && d.WellFormed(size)
    ensures r.Success? <==> d.Holds(index)
    ensures r.Success? ==>
              match d.storage
              case InlineScalar(_) => r.value.None?
              case OutOfLine(_) => 0 <= EntryStart(d, index) && EntryStart(d, index) + d.elementWidth <= size
                                   && r.value ==
                                       Some(Range(EntryStart(d, index), EntryStart(d, index) + d.elementWidth))
  {
    if index >= d.count then Failure(ExceedsCount(index))
    else
      match d.storage
      case InlineScalar(_) =>
        if d.count != 1 || index != 0 then Failure(InlineNotScalar) else Success(None)
      case OutOfLine(base) =>
        var start := EntryStart(d, index);
        if start > U64_MAX || start + d.elementWidth > size then Failure(EntryOutOfObject)
        else Success(Some(Range(start, start + d.elementWidth)))
  }

  /** The bytes of the index array; stored in the entry itself, they are the low bytes of its value field. */
  function ArrayBytes(content: seq<u8>, d: Descriptor): (b: seq<u8>)
    requires |content| <= U64_MAX && d.WellFormed(|content|)
    ensures |b| == d.Extent()
  {
    match d.storage
    case InlineScalar(value) => PrintLe(value, d.Extent())
    case OutOfLine(offset) => content[offset..offset + d.Extent()]
  }

  /** The element that the index array holds for a tile: its own four or eight bytes. */
  function IndexValue(content: seq<u8>, d: Descriptor, index: nat): u64
    requires |content| <= U64_MAX && d.WellFormed(|content|) && index < d.count
  {
    Powers();
    var at := if d.elementWidth == 4 then 4 * index else 8 * index;
    ParseLe(ArrayBytes(content, d)[at..at + d.elementWidth])
  }

  /** The value that the reader takes for a tile: the whole value field of an inline entry. */
  function ReadValue(content: seq<u8>, d: Descriptor, index: nat): u64
    requires |content| <= U64_MAX && d.WellFormed(|content|) && d.Holds(index)
  {
    match d.storage
    case InlineScalar(value) => value
    case OutOfLine(_) =>
      Powers();
      ParseLe(content[EntryStart(d, index)..EntryStart(d, index) + d.elementWidth])
  }

  lemma {:induction false} LowBytes(v: nat, n: nat, m: nat)
    requires m <= n
    ensures PrintLe(v, n)[..m] == PrintLe(v, m)
  {
    if m > 0 {
      LowBytes(v / 0x100, n - 1, m - 1);
      assert PrintLe(v, n)[..m] == [v % 0x100] + PrintLe(v / 0x100, n - 1)[..m - 1];
    }
  }

  /** The value field of a printed entry. */
  lemma PrintedField(f: Format, e: Entry, m: nat)
    requires m <= f.InlineWidth()
    ensures var field := 4 + f.InlineWidth();
            |PrintEntry(f, e)| == field + f.InlineWidth()
            && PrintEntry(f, e)[field..field + m] == PrintLe(e.value, f.InlineWidth())[..m]
  {
  }

  /** An array stored in the entry is the first bytes of the value field that the entry prints. */
  lemma InlineArrayIsPrinted(content: seq<u8>, f: Format, e: Entry)
    requires |content| <= U64_MAX && RemoteDescriptor(f, e, |content|).Success?
    requires RemoteDescriptor(f, e, |content|).value.storage.InlineScalar?
    ensures var d := RemoteDescriptor(f, e, |content|).value;
            var field := 4 + f.InlineWidth();
            ArrayBytes(content, d) == PrintEntry(f, e)[field..field + d.Extent()]
  {
    var d := RemoteDescriptor(f, e, |content|).value;
    var w := f.InlineWidth();
    LowBytes(e.value, w, d.Extent());
    PrintedField(f, e, d.Extent());
  }

  /** The reader takes the element of the array exactly when an inline LONG has no other bytes beside it. */
  lemma ReadValueIsIndexValue(content: seq<u8>, d: Descriptor, index: nat)
    requires |content| <= U64_MAX && d.WellFormed(|content|) && d.Holds(index)
    ensures ReadValue(content, d, index) == IndexValue(content, d, index) <==> d.Unpadded()
  {
    Powers();
    match d.storage
    case InlineScalar(value) =>
      var w := d.elementWidth;
      assert ArrayBytes(content, d)[0..w] == PrintLe(value, w);
      if value < Pow256(w) {
        ParsePrinted(value, w);
      }
    case OutOfLine(offset) =>
      var at := if d.elementWidth == 4 then 4 * index else 8 * index;
      SliceOfSlice(content, offset, d.Extent(), at, d.elementWidth);
  }

  lemma SliceOfSlice(s: seq<u8>, start: nat, length: nat, at: nat, width: nat)
    requires start + length <= |s| && at + width <= length
    ensures s[start..start + length][at..at + width] == s[start + at..start + at + width]
  {
    var a, b := s[start..start + length][at..at + width], s[start + at..start + at + width];
    forall i | 0 <= i < |a| ensures a[i] == b[i] {
      assert a[i] == s[start + at + i];
    }
  }

  /** Two LONGs side by side in the value field of one entry. */
  predicate TwoLongs(f: Format, e: Entry) {
    f.BigTiff? && e.fieldType == 4 && e.count == 2
  }

  /** A single LONG in the value field of an entry, with other bytes beside it. */
  predicate PaddedLong(f: Format, e: Entry) {
    f.BigTiff? && e.fieldType == 4 && e.count == 1 && e.value > U32_MAX
  }

  /**
    The descriptor of an accepted entry is looked up at all its indices unless it is two LONGs
    side by side in a BigTIFF entry.
   */
  lemma LookedUpUnlessTwoLongs(f: Format, e: Entry, size: nat, d: Descriptor)
    requires size <= U64_MAX && RemoteDescriptor(f, e, size) == Success(d)
    ensures (forall index: u32 :: index < d.count ==> DescriptorEntryRange(d, index, size).Success?) <==> d.Scalar()
    ensures d.Scalar() <==> !TwoLongs(f, e)
  {
    if !d.Scalar() {
      assert DescriptorEntryRange(d, 0, size).Failure?;
    }
  }

  /** An accepted entry is misread exactly when it is a single LONG in a BigTIFF entry with other bytes beside it. */
  lemma MisreadWhenPadded(f: Format, e: Entry, size: nat, d: Descriptor)
    requires size <= U64_MAX && e.value <= f.MaxValue() && RemoteDescriptor(f, e, size) == Success(d)
    ensures d.Unpadded() <==> !PaddedLong(f, e)
  {
  }

  /**
    A one-tile BigTIFF index whose entry has a byte beside the LONG: the entry holds 16, the
    reader takes 4 GiB and 16.
   */
  lemma PaddedEntryIsMisread(content: seq<u8>)
    requires |content| <= U64_MAX
    ensures var d := RemoteDescriptor(BigTiff, Entry(324, 4, 1, 0x1_0000_0010), |content|);
            && d.Success? && d.value.Holds(0)
            && ReadValue(content, d.value, 0) == 0x1_0000_0010 && IndexValue(content, d.value, 0) == 0x10
  {
    var d := RemoteDescriptor(BigTiff, Entry(324, 4, 1, 0x1_0000_0010), |content|).value;
    assert ArrayBytes(content, d)[0..4] == PrintLe(0x1_0000_0010, 4);
    assert PrintLe(0x1_0000_0010, 4) == [0x10] + PrintLe(0x100_0000, 3);
    assert PrintLe(0x100_0000, 3) == [0, 0, 0] == PrintLe(0, 3);
    assert PrintLe(0x10, 4) == [0x10] + PrintLe(0, 3);
    Powers();
    ParsePrinted(0x10, 4);
  }

  /** A two-tile BigTIFF index of LONGs: accepted, and then refused at both its indices. */
  lemma TwoLongsAreRefused(value: u64, size: nat)
    requires size <= U64_MAX
    ensures var d := RemoteDescriptor(BigTiff, Entry(324, 4, 2, value), size);
            && d.Success?
            && DescriptorEntryRange(d.value, 0, size) == Failure(InlineNotScalar)
            && DescriptorEntryRange(d.value, 1, size) == Failure(InlineNotScalar)
  {
  }

  /** `decode_descriptor_value`: the response must be exactly one element long. */
  function DecodeDescriptorValue(d: Descriptor, bytes: Option<seq<u8>>): (r: Result<u64, IndexError>)
    requires d.elementWidth == 4 || d.elementWidth == 8
  {
    Powers();
    match d.storage
    case InlineScalar(value) => Success(value)
    case OutOfLine(_) =>
      if bytes.None? || |bytes.value| != d.elementWidth then Failure(IncompleteResponse)
      else Success(ParseLe(bytes.value))
  }

  datatype ResolvedTile = ResolvedTile(index: u32, range: Range)

  datatype ResolvedPlan = ResolvedPlan(objectSize: nat, tiles: seq<ResolvedTile>, compressedBytes: u64, indexBytes: nat)

  /** The tile that the file's index describes. */
  predicate Describes(content: seq<u8>, offsets: Descriptor, counts: Descriptor, index: u32, tile: ResolvedTile)
    requires |content| <= U64_MAX && offsets.WellFormed(|content|) && counts.WellFormed(|content|)
  {
    && index < offsets.count && index < counts.count
    && tile.index == index
    && tile.range.start == IndexValue(content, offsets, index)
    && tile.range.end == tile.range.start + IndexValue(content, counts, index)
  }

  /** The tile that the reader takes from the file's index. */
  predicate Reads(content: seq<u8>, offsets: Descriptor, counts: Descriptor, index: u32, tile: ResolvedTile)
    requires |content| <= U64_MAX && offsets.WellFormed(|content|) && counts.WellFormed(|content|)
  {
    && offsets.Holds(index) && counts.Holds(index)
    && tile.index == index
    && tile.range.start == ReadValue(content, offsets, index)
    && tile.range.end == tile.range.start + ReadValue(content, counts, index)
  }

  /** What the reader takes is what the index describes, exactly when neither inline LONG has other bytes beside it. */
  lemma ReadsWhatIsDescribed(content: seq<u8>, offsets: Descriptor, counts: Descriptor, index: u32, tile: ResolvedTile)
    requires |content| <= U64_MAX && offsets.WellFormed(|content|) && counts.WellFormed(|content|)
    requires Reads(content, offsets, counts, index, tile)
    ensures Describes(content, offsets, counts, index, tile) <==> offsets.Unpadded() && counts.Unpadded()
  {
    ReadValueIsIndexValue(content, offsets, index);
    ReadValueIsIndexValue(content, counts, index);
  }

  function Lengths(tiles: seq<ResolvedTile>): int {
    if tiles == [] then 0
    else Lengths(tiles[..|tiles| - 1]) + tiles[|tiles| - 1].range.end - tiles[|tiles| - 1].range.start
  }

  // ---- The interleaved index request --------------------------------------------------

  /** Ranges requested for the tiles before position `k`: none, one or two for each. */
  function Slots(offsets: Descriptor, counts: Descriptor, k: nat): nat {
    match (offsets.storage, counts.storage)
    case (InlineScalar(_), InlineScalar(_)) => 0
    case (OutOfLine(_), OutOfLine(_)) => 2 * k
    case _ => k
  }

  /** The requests made for tile `k` stand at its slots, offsets before counts. */
  predicate RequestedAt(offsets: Descriptor, counts: Descriptor, index: u32, ranges: seq<Range>, slot: nat) {
    && (offsets.storage.OutOfLine? ==>
        && slot < |ranges|
        && ranges[slot].start == EntryStart(offsets, index)
        && ranges[slot].end == ranges[slot].start + offsets.elementWidth)
    && (counts.storage.OutOfLine? ==>
        var next := if offsets.storage.OutOfLine? then slot + 1 else slot;
        && next < |ranges|
        && ranges[next].start == EntryStart(counts, index)
        && ranges[next].end == ranges[next].start + counts.elementWidth)
  }

  predicate AllRequested(offsets: Descriptor, counts: Descriptor, plan: seq<u32>, ranges: seq<Range>) {
    && |ranges| == Slots(offsets, counts, |plan|)
    && forall k :: 0 <= k < |plan| ==> RequestedAt(offsets, counts, plan[k], ranges, Slots(offsets, counts, k))
  }

  predicate Bounded(ranges: seq<Range>, size: nat) {
    forall i :: 0 <= i < |ranges| ==> ranges[i].start <= ranges[i].end <= size && ranges[i].end - ranges[i].start <= 8
  }

  /** The requests of one descriptor for one tile: its entry's range, or none when the value is inline. */
  function Request(range: Option<Range>): seq<Range> {
    if range.Some? then [range.value] else []
  }

  /** Appending the requests of one more tile keeps every earlier one at its slot. */
  lemma RequestsAppended(offsets: Descriptor, counts: Descriptor, plan: seq<u32>, index: u32, ranges: seq<Range>,
                         first: Option<Range>, second: Option<Range>, size: nat)
    requires size <= U64_MAX && offsets.WellFormed(size) && counts.WellFormed(size)
    requires AllRequested(offsets, counts, plan, ranges) && Bounded(ranges, size)
    requires DescriptorEntryRange(offsets, index, size) == Success(first)
    requires DescriptorEntryRange(counts, index, size) == Success(second)
    ensures AllRequested(offsets, counts, plan + [index], ranges + Request(first) + Request(second))
    ensures Bounded(ranges + Request(first) + Request(second), size)
  {
    var more := Request(first) + Request(second);
    assert ranges + Request(first) + Request(second) == ranges + more;
    RequestsOfTile(offsets, counts, index, ranges, first, second, size);
    SlotsOfNext(offsets, counts, |plan|);
    OneMoreRequested(offsets, counts, plan, index, ranges, more);
  }

  lemma OneMoreRequested(offsets: Descriptor, counts: Descriptor, plan: seq<u32>, index: u32, ranges: seq<Range>,
                         more: seq<Range>)
    requires AllRequested(offsets, counts, plan, ranges)
    requires RequestedAt(offsets, counts, index, ranges + more, |ranges|)
    requires |ranges| + |more| == Slots(offsets, counts, |plan| + 1)
    ensures AllRequested(offsets, counts, plan + [index], ranges + more)
  {
    var plan' := plan + [index];
    forall k | 0 <= k < |plan'|
      ensures RequestedAt(offsets, counts, plan'[k], ranges + more, Slots(offsets, counts, k))
    {
      if k < |plan| {
        RequestStays(offsets, counts, plan[k], ranges, more, Slots(offsets, counts, k));
      } else {
        assert plan'[k] == index && Slots(offsets, counts, k) == |ranges|;
      }
    }
  }

  lemma SlotsOfNext(offsets: Descriptor, counts: Descriptor, k: nat)
    ensures Slots(offsets, counts, k + 1) == Slots(offsets, counts, k) +
        (if offsets.storage.OutOfLine? then 1 else 0) + (if counts.storage.OutOfLine? then 1 else 0)
  {
  }

  lemma RequestStays(offsets: Descriptor, counts: Descriptor, index: u32, ranges: seq<Range>, more: seq<Range>,
                     slot: nat)
    requires RequestedAt(offsets, counts, index, ranges, slot)
    ensures RequestedAt(offsets, counts, index, ranges + more, slot)
  {
  }

  /** The new requests stand behind the old ones, one for each descriptor that is out of line. */
  lemma RequestsOfTile(offsets: Descriptor, counts: Descriptor, index: u32, ranges: seq<Range>,
                       first: Option<Range>, second: Option<Range>, size: nat)
    requires size <= U64_MAX && offsets.WellFormed(size) && counts.WellFormed(size) && Bounded(ranges, size)
    requires DescriptorEntryRange(offsets, index, size) == Success(first)
    requires DescriptorEntryRange(counts, index, size) == Success(second)
    ensures RequestedAt(offsets, counts, index, ranges + (Request(first) + Request(second)), |ranges|)
    ensures Bounded(ranges + (Request(first) + Request(second)), size)
    ensures |Request(first)| == if offsets.storage.OutOfLine? then 1 else 0
    ensures |Request(second)| == if counts.storage.OutOfLine? then 1 else 0
  {
  }

  /** The entry ranges of the planned tiles, or the first index the descriptors cannot look up. */
  method EntryRanges(offsets: Descriptor, counts: Descriptor, plan: seq<u32>, size: nat)
    returns (r: Result<seq<Range>, IndexError>)
    requires size <= U64_MAX && offsets.WellFormed(size) && counts.WellFormed(size)
    ensures r.Success? <==> forall k :: 0 <= k < |plan| ==> offsets.Holds(plan[k]) && counts.Holds(plan[k])
    ensures r.Success? ==> AllRequested(offsets, counts, plan, r.value) && Bounded(r.value, size)
    ensures r.Failure? ==> r.error != IncompleteResponse
  {
    var ranges: seq<Range> := [];
    for k := 0 to |plan|
      invariant AllRequested(offsets, counts, plan[..k], ranges) && Bounded(ranges, size)
      invariant forall j :: 0 <= j < k ==> offsets.Holds(plan[j]) && counts.Holds(plan[j])
    {
      var first := DescriptorEntryRange(offsets, plan[k], size);
      if first.Failure? {
        return Failure(first.error);
      }
      var second := DescriptorEntryRange(counts, plan[k], size);
      if second.Failure? {
        return Failure(second.error);
      }
      RequestsAppended(offsets, counts, plan[..k], plan[k], ranges, first.value, second.value, size);
      ranges := ranges + Request(first.value) + Request(second.value);
      assert plan[..k + 1] == plan[..k] + [plan[k]];
    }
    assert plan[..|plan|] == plan;
    return Success(ranges);
  }

  // ---- Resolving the plan -------------------------------------------------------------

  /** Every planned tile can be looked up, and neither a chunk's end nor the total overflows. */
  predicate Resolvable(content: seq<u8>, offsets: Descriptor, counts: Descriptor, plan: seq<u32>)
    requires |content| <= U64_MAX && offsets.WellFormed(|content|) && counts.WellFormed(|content|)
  {
    && (forall k :: 0 <= k < |plan| ==>
          && offsets.Holds(plan[k]) && counts.Holds(plan[k])
          && ReadValue(content, offsets, plan[k]) + ReadValue(content, counts, plan[k]) <= U64_MAX)
    && CoveredBytes(content, offsets, counts, plan) <= U64_MAX
  }

  /** Sum of the stored lengths of the planned tiles. */
  function CoveredBytes(content: seq<u8>, offsets: Descriptor, counts: Descriptor, plan: seq<u32>): nat
    requires |content| <= U64_MAX && offsets.WellFormed(|content|) && counts.WellFormed(|content|)
    requires forall k :: 0 <= k < |plan| ==> counts.Holds(plan[k])
  {
    if plan == [] then 0
    else CoveredBytes(content, offsets, counts, plan[..|plan| - 1]) + ReadValue(content, counts, plan[|plan| - 1])
  }

  lemma {:induction false} CoveredBytesGrow(content: seq<u8>, offsets: Descriptor, counts: Descriptor, plan: seq<u32>,
                                            k: nat)
    requires |content| <= U64_MAX && offsets.WellFormed(|content|) && counts.WellFormed(|content|)
    requires forall j :: 0 <= j < |plan| ==> counts.Holds(plan[j])
    requires k <= |plan|
    ensures CoveredBytes(content, offsets, counts, plan[..k]) <= CoveredBytes(content, offsets, counts, plan)
    decreases |plan|
  {
    if k < |plan| {
      var front := plan[..|plan| - 1];
      CoveredBytesGrow(content, offsets, counts, front, k);
      assert front[..k] == plan[..k];
    } else {
      assert plan[..k] == plan;
    }
  }

  /** Complete responses decode to the values the file's index holds. */
  lemma ResponseValue(content: seq<u8>, d: Descriptor, index: u32, range: Range, response: seq<u8>)
    requires |content| <= U64_MAX && d.WellFormed(|content|) && d.storage.OutOfLine? && d.Holds(index)
    requires range.start == EntryStart(d, index) && range.end == range.start + d.elementWidth <= |content|
    requires response <= content[range.start..range.end]
    ensures DecodeDescriptorValue(d, Some(response)).Success? ==>
              DecodeDescriptorValue(d, Some(response)).value == ReadValue(content, d, index)
  {
    if |response| == d.elementWidth {
      assert response == content[range.start..range.end];
    }
  }

  /** Some response is not the whole range. */
  ghost predicate ShortResponse(content: seq<u8>, ranges: seq<Range>, responses: seq<seq<u8>>)
    requires |responses| == |ranges| && Bounded(ranges, |content|)
  {
    exists i :: 0 <= i < |responses| && responses[i] != content[ranges[i].start..ranges[i].end]
  }

  /** The decoded index value of one descriptor, taking its response from `slot` if it has one. */
  method TakeValue(content: seq<u8>, d: Descriptor, index: u32, ranges: seq<Range>, responses: seq<seq<u8>>, slot: nat)
    returns (r: Result<u64, IndexError>, next: nat)
    requires |content| <= U64_MAX && d.WellFormed(|content|) && d.Holds(index)
    requires |responses| == |ranges| && Bounded(ranges, |content|)
    requires forall i :: 0 <= i < |responses| ==> responses[i] <= content[ranges[i].start..ranges[i].end]
    requires d.storage.OutOfLine? ==>
               && slot < |ranges| && ranges[slot].start == EntryStart(d, index)
               && ranges[slot].end == ranges[slot].start + d.elementWidth
    ensures next == if d.storage.OutOfLine? then slot + 1 else slot
    ensures r.Success? ==> r.value == ReadValue(content, d, index)
    ensures r.Success? ==> (r.value == IndexValue(content, d, index) <==> d.Unpadded())
    ensures r.Failure? ==> r.error == IncompleteResponse && ShortResponse(content, ranges, responses)
  {
    ReadValueIsIndexValue(content, d, index);
    if d.storage.InlineScalar? {
      return DecodeDescriptorValue(d, None), slot;
    }
    ResponseValue(content, d, index, ranges[slot], responses[slot]);
    return DecodeDescriptorValue(d, Some(responses[slot])), slot + 1;
  }

  /** The tiles resolved so far: the first `k` of the plan, their lengths summed. */
  predicate ResolvedSoFar(content: seq<u8>, offsets: Descriptor, counts: Descriptor, plan: seq<u32>,
                          tiles: seq<ResolvedTile>, total: int)
    requires |content| <= U64_MAX && offsets.WellFormed(|content|) && counts.WellFormed(|content|)
  {
    && |tiles| <= |plan|
    && (forall k :: 0 <= k < |tiles| ==> Reads(content, offsets, counts, plan[k], tiles[k]))
    && total == Lengths(tiles)
  }

  lemma ResolveNext(content: seq<u8>, offsets: Descriptor, counts: Descriptor, plan: seq<u32>,
                    tiles: seq<ResolvedTile>, total: int,
                    tile: ResolvedTile)
    requires |content| <= U64_MAX && offsets.WellFormed(|content|) && counts.WellFormed(|content|)
    requires ResolvedSoFar(content, offsets, counts, plan, tiles, total) && |tiles| < |plan|
    requires Reads(content, offsets, counts, plan[|tiles|], tile)
    ensures ResolvedSoFar(content, offsets, counts, plan, tiles + [tile], total + (tile.range.end - tile.range.start))
  {
    assert (tiles + [tile])[..|tiles|] == tiles;
  }

  lemma {:induction false} LengthsAreCovered(content: seq<u8>, offsets: Descriptor, counts: Descriptor, plan: seq<u32>,
                                             tiles: seq<ResolvedTile>)
    requires |content| <= U64_MAX && offsets.WellFormed(|content|) && counts.WellFormed(|content|)
    requires |tiles| == |plan|
    requires forall k :: 0 <= k < |plan| ==> counts.Holds(plan[k])
    requires forall k :: 0 <= k < |tiles| ==> Reads(content, offsets, counts, plan[k], tiles[k])
    ensures Lengths(tiles) == CoveredBytes(content, offsets, counts, plan)
    decreases |tiles|
  {
    if tiles != [] {
      LengthsAreCovered(content, offsets, counts, plan[..|plan| - 1], tiles[..|tiles| - 1]);
    }
  }

  lemma Unresolvable(content: seq<u8>, offsets: Descriptor, counts: Descriptor, plan: seq<u32>, k: nat)
    requires |content| <= U64_MAX && offsets.WellFormed(|content|) && counts.WellFormed(|content|)
    requires k < |plan| && forall j :: 0 <= j < |plan| ==> offsets.Holds(plan[j]) && counts.Holds(plan[j])
    requires || ReadValue(content, offsets, plan[k]) + ReadValue(content, counts, plan[k]) > U64_MAX
             || CoveredBytes(content, offsets, counts, plan[..k + 1]) > U64_MAX
    ensures !Resolvable(content, offsets, counts, plan)
  {
    CoveredBytesGrow(content, offsets, counts, plan, k + 1);
  }

  /** Pair the responses with the planned tiles: the response cursor follows the slots exactly. */
  method PairResponses(content: seq<u8>, offsets: Descriptor, counts: Descriptor, plan: seq<u32>, ranges: seq<Range>,
                       responses: seq<seq<u8>>) returns (r: Result<(seq<ResolvedTile>, u64), IndexError>)
    requires |content| <= U64_MAX && offsets.WellFormed(|content|) && counts.WellFormed(|content|)
    requires forall k :: 0 <= k < |plan| ==> offsets.Holds(plan[k]) && counts.Holds(plan[k])
    requires AllRequested(offsets, counts, plan, ranges) && Bounded(ranges, |content|) && |responses| == |ranges|
    requires forall i :: 0 <= i < |responses| ==> responses[i] <= content[ranges[i].start..ranges[i].end]
    ensures r.Success? ==>
              && Resolvable(content, offsets, counts, plan)
              && |r.value.0| == |plan|
              && (forall k :: 0 <= k < |plan| ==> Reads(content, offsets, counts, plan[k], r.value.0[k]))
              && r.value.1 == CoveredBytes(content, offsets, counts, plan)
    ensures r.Failure? && r.error != IncompleteResponse ==> !Resolvable(content, offsets, counts, plan)
    ensures r == Failure(IncompleteResponse) ==> ShortResponse(content, ranges, responses)
  {
    var cursor := 0;
    var tiles: seq<ResolvedTile> := [];
    var compressed: u64 := 0;
    for k := 0 to |plan|
      invariant |tiles| == k && cursor == Slots(offsets, counts, k)
      invariant ResolvedSoFar(content, offsets, counts, plan, tiles, compressed)
    {
      var resolved, next := ResolveTile(content, offsets, counts, plan[k], ranges, responses, cursor);
      cursor := next;
      if resolved.Failure? {
        EndOverflows(content, offsets, counts, plan, k, resolved.error);
        return Failure(resolved.error);
      }
      var tile := resolved.value;
      var length := tile.range.end - tile.range.start;
      ResolveNext(content, offsets, counts, plan, tiles, compressed, tile);
      if compressed + length > U64_MAX {
        TotalOverflows(content, offsets, counts, plan, tiles + [tile]);
        return Failure(CoveredBytesOverflow);
      }
      compressed := compressed + length;
      tiles := tiles + [tile];
    }
    AllResolved(content, offsets, counts, plan, tiles, compressed);
    return Success((tiles, compressed));
  }

  lemma AllResolved(content: seq<u8>, offsets: Descriptor, counts: Descriptor, plan: seq<u32>,
                    tiles: seq<ResolvedTile>, total: u64)
    requires |content| <= U64_MAX && offsets.WellFormed(|content|) && counts.WellFormed(|content|)
    requires ResolvedSoFar(content, offsets, counts, plan, tiles, total) && |tiles| == |plan|
    ensures Resolvable(content, offsets, counts, plan) && total == CoveredBytes(content, offsets, counts, plan)
  {
    forall k | 0 <= k < |plan|
      ensures offsets.Holds(plan[k]) && counts.Holds(plan[k])
      ensures ReadValue(content, offsets, plan[k]) + ReadValue(content, counts, plan[k]) <= U64_MAX
    {
      assert Reads(content, offsets, counts, plan[k], tiles[k]);
    }
    LengthsAreCovered(content, offsets, counts, plan, tiles);
  }

  lemma EndOverflows(content: seq<u8>, offsets: Descriptor, counts: Descriptor, plan: seq<u32>, k: nat,
                     error: IndexError)
    requires |content| <= U64_MAX && offsets.WellFormed(|content|) && counts.WellFormed(|content|)
    requires k < |plan| && offsets.Holds(plan[k]) && counts.Holds(plan[k])
    requires error != IncompleteResponse ==>
               ReadValue(content, offsets, plan[k]) + ReadValue(content, counts, plan[k]) > U64_MAX
    ensures error != IncompleteResponse ==> !Resolvable(content, offsets, counts, plan)
  {
  }

  lemma TotalOverflows(content: seq<u8>, offsets: Descriptor, counts: Descriptor, plan: seq<u32>,
                       tiles: seq<ResolvedTile>)
    requires |content| <= U64_MAX && offsets.WellFormed(|content|) && counts.WellFormed(|content|)
    requires forall k :: 0 <= k < |plan| ==> offsets.Holds(plan[k]) && counts.Holds(plan[k])
    requires 0 < |tiles| && ResolvedSoFar(content, offsets, counts, plan, tiles, Lengths(tiles))
    requires Lengths(tiles) > U64_MAX
    ensures !Resolvable(content, offsets, counts, plan)
  {
    LengthsAreCovered(content, offsets, counts, plan[..|tiles|], tiles);
    Unresolvable(content, offsets, counts, plan, |tiles| - 1);
  }

  /** One tile's range, and the response cursor after it. */
  method ResolveTile(content: seq<u8>, offsets: Descriptor, counts: Descriptor, index: u32, ranges: seq<Range>,
                     responses: seq<seq<u8>>, cursor: nat) returns (r: Result<ResolvedTile, IndexError>, next: nat)
    requires |content| <= U64_MAX && offsets.WellFormed(|content|) && counts.WellFormed(|content|)
    requires offsets.Holds(index) && counts.Holds(index)
    requires RequestedAt(offsets, counts, index, ranges, cursor) && Bounded(ranges, |content|)
    requires |responses| == |ranges|
    requires forall i :: 0 <= i < |responses| ==> responses[i] <= content[ranges[i].start..ranges[i].end]
    ensures next == cursor + Slots(offsets, counts, 1)
    ensures r.Success? ==> Reads(content, offsets, counts, index, r.value)
    ensures r.Failure? && r.error != IncompleteResponse ==>
              ReadValue(content, offsets, index) + ReadValue(content, counts, index) > U64_MAX
    ensures r == Failure(IncompleteResponse) ==> ShortResponse(content, ranges, responses)
  {
    var offset, afterOffset := TakeValue(content, offsets, index, ranges, responses, cursor);
    var count, afterCount := TakeValue(content, counts, index, ranges, responses, afterOffset);
    if offset.Failure? || count.Failure? {
      return Failure(IncompleteResponse), afterCount;
    }
    if offset.value + count.value > U64_MAX {
      return Failure(ChunkEndOverflow), afterCount;
    }
    return Success(ResolvedTile(index, Range(offset.value, offset.value + count.value))), afterCount;
  }

  /** At most eight bytes of metadata for each entry requested. */
  lemma {:induction false} SmallResponses(ranges: seq<Range>, responses: seq<seq<u8>>)
    requires |responses| <= |ranges|
    requires forall i :: 0 <= i < |responses| ==> |responses[i]| <= 8
    ensures TotalLength(responses) <= 8 * |ranges|
    decreases |responses|
  {
    if responses != [] {
      SmallResponses(ranges[1..], responses[1..]);
    }
  }

  lemma PrefixesAreSmall(content: seq<u8>, ranges: seq<Range>, responses: seq<seq<u8>>)
    requires Bounded(ranges, |content|) && |responses| == |ranges|
    requires forall i :: 0 <= i < |responses| ==> responses[i] <= content[ranges[i].start..ranges[i].end]
    ensures TotalLength(responses) <= 8 * |ranges|
  {
    forall i | 0 <= i < |responses| ensures |responses[i]| <= 8 {
      assert |responses[i]| <= |content[ranges[i].start..ranges[i].end]|;
    }
    SmallResponses(ranges, responses);
  }

  lemma ReadsAllDescribed(content: seq<u8>, offsets: Descriptor, counts: Descriptor, plan: seq<u32>,
                          tiles: seq<ResolvedTile>)
    requires |content| <= U64_MAX && offsets.WellFormed(|content|) && counts.WellFormed(|content|)
    requires |tiles| == |plan|
    requires forall k :: 0 <= k < |plan| ==> Reads(content, offsets, counts, plan[k], tiles[k])
    ensures forall k :: 0 <= k < |plan| ==>
              (Describes(content, offsets, counts, plan[k], tiles[k]) <==> offsets.Unpadded() && counts.Unpadded())
  {
    forall k | 0 <= k < |plan|
      ensures Describes(content, offsets, counts, plan[k], tiles[k]) <==> offsets.Unpadded() && counts.Unpadded()
    {
      ReadsWhatIsDescribed(content, offsets, counts, plan[k], tiles[k]);
    }
  }

  /**
    Fetch the index entries of the planned tiles in one request and pair them up again.
    Unless a response is missing or short, the plan is resolved exactly when it can be, tile
    by tile as the file's index gives it; metadata grows only with the planned tiles.
   */
  method ResolveTilePlan(store: Store, offsets: Descriptor, counts: Descriptor, plan: seq<u32>)
    returns (r: Result<ResolvedPlan, IndexError>)
    requires |store.content| <= U64_MAX
    requires offsets.WellFormed(|store.content|) && counts.WellFormed(|store.content|)
    modifies store
    ensures r.Success? ==>
              && Resolvable(store.content, offsets, counts, plan)
              && |r.value.tiles| == |plan|
              && (forall k :: 0 <= k < |plan| ==> Reads(store.content, offsets, counts, plan[k], r.value.tiles[k]))
              && (forall k :: 0 <= k < |plan| ==>
                    (Describes(store.content, offsets, counts, plan[k], r.value.tiles[k]) <==>
                        offsets.Unpadded() && counts.Unpadded()))
              && r.value.objectSize == |store.content|
              && r.value.compressedBytes == CoveredBytes(store.content, offsets, counts, plan)
              && r.value.indexBytes <= 16 * |plan|
              && store.returned == old(store.returned) + r.value.indexBytes
    ensures r.Failure? && r.error != IncompleteResponse ==> !Resolvable(store.content, offsets, counts, plan)
    ensures store.faults >= old(store.faults) && (r == Failure(IncompleteResponse) ==> store.faults > old(store.faults))
  {
    var ranges :- EntryRanges(offsets, counts, plan, |store.content|);
    var responses: seq<seq<u8>> := [];
    if ranges != [] {
      var fetched := store.GetRanges(ranges);
      if fetched.Failure? || |fetched.value| != |ranges| {
        return Failure(IncompleteResponse);
      }
      responses := fetched.value;
    }
    PrefixesAreSmall(store.content, ranges, responses);
    var paired :- PairResponses(store.content, offsets, counts, plan, ranges, responses);
    ReadsAllDescribed(store.content, offsets, counts, plan, paired.0);
    return Success(ResolvedPlan(|store.content|, paired.0, paired.1, TotalLength(responses)));
  }

  // ---- The compressed tiles -----------------------------------------------------------

  /** Ranges that may be fetched: nonempty, inside the object, each and together under the ceilings. */
  predicate Fetchable(tiles: seq<ResolvedTile>, size: nat) {
    && (forall k :: 0 <= k < |tiles| ==>
          && tiles[k].range.start < tiles[k].range.end <= size
          && tiles[k].range.end - tiles[k].range.start <= MAX_COMPRESSED_CHUNK_BYTES)
    && Lengths(tiles) <= MAX_COVERED_CHUNK_BYTES
  }

  lemma {:induction false} LengthsGrow(tiles: seq<ResolvedTile>, k: nat)
    requires k <= |tiles| && forall j :: 0 <= j < |tiles| ==> tiles[j].range.start < tiles[j].range.end
    ensures Lengths(tiles[..k]) <= Lengths(tiles)
    decreases |tiles|
  {
    if k < |tiles| {
      var front := tiles[..|tiles| - 1];
      LengthsGrow(front, k);
      assert front[..k] == tiles[..k];
    } else {
      assert tiles[..k] == tiles;
    }
  }

  /** The ranges of a resolved plan, if every one of them may be fetched. */
  method ValidateCompressedRanges(tiles: seq<ResolvedTile>, objectSize: nat) returns (r: Result<seq<Range>, IndexError>)
    ensures r.Success? <==> Fetchable(tiles, objectSize)
    ensures r.Success? ==> |r.value| == |tiles| && forall k :: 0 <= k < |tiles| ==> r.value[k] == tiles[k].range
    ensures r.Failure? ==> r.error != IncompleteResponse
  {
    var aggregate: u64 := 0;
    var ranges: seq<Range> := [];
    for k := 0 to |tiles|
      invariant |ranges| == k && Fetchable(tiles[..k], objectSize) && aggregate == Lengths(tiles[..k])
      invariant forall j :: 0 <= j < k ==> ranges[j] == tiles[j].range
    {
      var tile := tiles[k];
      assert tiles[..k + 1][..k] == tiles[..k];
      if tile.range.start >= tile.range.end {
        return Failure(InvalidChunkRange(tile.index));
      }
      var bytes: u64 := tile.range.end - tile.range.start;
      if bytes > MAX_COMPRESSED_CHUNK_BYTES {
        return Failure(ChunkTooLarge(tile.index));
      }
      aggregate := aggregate + bytes;
      if aggregate > MAX_COVERED_CHUNK_BYTES {
        if Fetchable(tiles, objectSize) { LengthsGrow(tiles, k + 1); }
        return Failure(CoveredBytesTooLarge);
      }
      if tile.range.end > objectSize {
        return Failure(ChunkOutOfObject(tile.index));
      }
      ranges := ranges + [tile.range];
    }
    assert tiles[..|tiles|] == tiles;
    return Success(ranges);
  }
}
