/**
  The layout of a remote TIFF out of its directory: scalar tags, the transform's doubles (as
  bit patterns), the nodata text and the two tile-index descriptors.
 */
module RemoteLayout {
  import opened Prelude
  import opened TiffDirectory
  import opened ObjectStore
  import opened TileIndex
  import opened WindowDecode

  const MAX_REMOTE_METADATA_VALUE_BYTES: int := 65_536
  const MAX_REMOTE_ASCII_BYTES: int := 256
  /** Ceiling on the metadata bytes of one layout read, whatever the raster's tile count. */
  const MAX_LAYOUT_BYTES: int := HEADER_BYTES + 8 + MAX_REMOTE_IFD_ENTRY_BYTES + MAX_REMOTE_ASCII_BYTES + 24 + 48

  /** The first entry with the tag. */
  function FindEntry(es: seq<Entry>, tag: u16): (e: Option<Entry>)
    ensures e.None? <==> forall i :: 0 <= i < |es| ==> es[i].tag != tag
    ensures e.Some? ==> exists i :: 0 <= i < |es| && es[i] == e.value && e.value.tag == tag
                                    && forall j :: 0 <= j < i ==> es[j].tag != tag
  {
    if es == [] then None
    else if es[0].tag == tag then Some(es[0])
    else
      var rest := FindEntry(es[1..], tag);
      if rest.Some? then
        var i :| 0 <= i < |es| - 1 && es[1..][i] == rest.value && forall j :: 0 <= j < i ==> es[1..][j].tag != tag;
        assert es[i + 1] == rest.value && forall j :: 0 < j < i + 1 ==> es[j] == es[1..][j - 1];
        rest
      else
        assert forall j :: 0 < j < |es| ==> es[j] == es[1..][j - 1];
        rest
  }

  function RequiredEntry(es: seq<Entry>, tag: u16): (r: Result<Entry, LayoutError>)
    ensures r.Failure? ==> r.error != Transport
  {
    match FindEntry(es, tag)
    case Some(e) => Success(e)
    case None => Failure(MissingTag(tag))
  }

  /** `remote_inline_scalar`: one SHORT or LONG, its padding zero. */
  function InlineScalarOf(es: seq<Entry>, tag: u16): (r: Result<u64, LayoutError>)
    ensures r.Success? ==> r.value <= U32_MAX
    ensures r.Failure? ==> r.error != Transport
  {
    var e :- RequiredEntry(es, tag);
    if (e.fieldType != 3 && e.fieldType != 4) || e.count != 1 then Failure(BadValue(tag))
    else if e.value > (if e.fieldType == 3 then 0xFFFF else U32_MAX) then Failure(BadValue(tag))
    else Success(e.value)
  }

  predicate ZeroFrom(b: seq<u8>, m: nat) {
    forall i :: m <= i < |b| ==> b[i] == 0
  }

  lemma ZeroFromTail(x: u8, tail: seq<u8>, m: nat)
    ensures ZeroFrom([x] + tail, m + 1) <==> ZeroFrom(tail, m)
    ensures ZeroFrom([x] + tail, 0) <==> x == 0 && ZeroFrom(tail, 0)
  {
    var b := [x] + tail;
    assert forall i :: 0 < i < |b| ==> b[i] == tail[i - 1];
    if ZeroFrom(b, m + 1) {
      forall i | m <= i < |tail| ensures tail[i] == 0 {
        assert b[i + 1] == tail[i];
      }
    }
    if ZeroFrom(b, 0) {
      assert b[0] == x;
      forall i | 0 <= i < |tail| ensures tail[i] == 0 {
        assert b[i + 1] == tail[i];
      }
    }
  }

  /** A number fits `m` of its `n` bytes exactly when the others are zero. */
  lemma {:induction false} HighBytes(v: nat, n: nat, m: nat)
    requires m <= n && v < Pow256(n)
    ensures v < Pow256(m) <==> ZeroFrom(PrintLe(v, n), m)
  {
    if n > 0 {
      var low, high := v % 0x100, v / 0x100;
      HighBytes(high, n - 1, if m > 0 then m - 1 else 0);
      ZeroFromTail(low, PrintLe(high, n - 1), if m > 0 then m - 1 else 0);
    }
  }

  /** The entry of a scalar tag is one SHORT or LONG that spells `v`, and the rest of its value field is zero. */
  predicate SpellsScalar(f: Format, e: Entry, v: u64) {
    var width := if e.fieldType == 3 then 2 else 4;
    var field := PrintEntry(f, e)[4 + f.InlineWidth()..];
    && (e.fieldType == 3 || e.fieldType == 4) && e.count == 1
    && ParseLe(field[..width]) == v
    && ZeroFrom(field, width)
  }

  predicate Spelled(f: Format, es: seq<Entry>, tag: u16, v: u64) {
    FindEntry(es, tag).Some? && SpellsScalar(f, FindEntry(es, tag).value, v)
  }

  /** A scalar tag is accepted exactly with the value that its first entry spells. */
  lemma ScalarIsSpelled(f: Format, es: seq<Entry>, tag: u16, v: u64)
    requires AllReadable(f, es)
    ensures InlineScalarOf(es, tag) == Success(v) <==> Spelled(f, es, tag, v)
  {
    Powers();
    if FindEntry(es, tag).Some? {
      var e := FindEntry(es, tag).value;
      var w, width := f.InlineWidth(), if e.fieldType == 3 then 2 else 4;
      assert PrintEntry(f, e)[4 + w..] == PrintLe(e.value, w);
      LowBytes(e.value, w, width);
      HighBytes(e.value, w, width);
      if e.value < Pow256(width) {
        ParsePrinted(e.value, width);
      }
    }
  }

  /** `remote_value_range`: the out-of-line range of exactly `expected` DOUBLE values. */
  function ValueRange(e: Entry, expected: u64, size: nat): (r: Result<Range, LayoutError>)
    requires size <= U64_MAX
    ensures r.Success? ==> e.fieldType == 12 && e.count == expected && r.value.start == e.value
                           && r.value.end == e.value + 8 * expected <= size
    ensures r.Failure? ==> r.error == OutOfObject || r.error == BadValue(e.tag)
  {
    if e.fieldType != 12 then Failure(BadValue(e.tag))
    else if FieldWidth(e.fieldType).value * e.count > MAX_REMOTE_METADATA_VALUE_BYTES then Failure(BadValue(e.tag))
    else if e.count != expected then Failure(BadValue(e.tag))
    else if e.value + 8 * e.count > size then Failure(OutOfObject)
    else Success(Range(e.value, e.value + 8 * e.count))
  }

  /** Bit patterns of little-endian doubles. */
  function Doubles(b: seq<u8>): seq<u64>
    requires |b| % 8 == 0
  {
    seq(|b| / 8, k requires 0 <= k < |b| / 8 => Powers(); ParseLe(b[8 * k..8 * k + 8]))
  }

  /** The text of an ASCII entry: the first bytes of its value field when they fit, or those the field points at. */
  function AsciiBytes(content: seq<u8>, f: Format, e: Entry): seq<u8>
    requires e.count <= f.InlineWidth() || e.value + e.count <= |content|
  {
    var field := 4 + f.InlineWidth();
    if e.count <= f.InlineWidth() then PrintEntry(f, e)[field..field + e.count] else content[e.value..e.value + e.count]
  }

  lemma InlineText(content: seq<u8>, f: Format, e: Entry)
    requires e.count <= f.InlineWidth()
    ensures PrintLe(e.value, 8)[..e.count] == AsciiBytes(content, f, e)
  {
    PrintedField(f, e, e.count);
    LowBytes(e.value, 8, e.count);
    LowBytes(e.value, f.InlineWidth(), e.count);
  }

  function TrimEndNul(text: seq<u8>): (t: seq<u8>)
    ensures t <= text && (t != [] ==> t[|t| - 1] != 0)
    ensures forall k :: |t| <= k < |text| ==> text[k] == 0
  {
    if text != [] && text[|text| - 1] == 0 then TrimEndNul(text[..|text| - 1]) else text
  }

  /** `remote_ascii`: absent, or the trimmed text and the bytes fetched for it. */
  method RemoteAscii(store: Store, f: Format, es: seq<Entry>, tag: u16, isUtf8: seq<u8> -> bool)
    returns (r: Result<(Option<seq<u8>>, nat), LayoutError>)
    requires |store.content| <= U64_MAX
    modifies store
    ensures r.Success? ==> store.returned == old(store.returned) + r.value.1 && r.value.1 <= MAX_REMOTE_ASCII_BYTES
    ensures r.Success? ==> HoldsText(store.content, f, es, tag, isUtf8, r.value.0)
    ensures r.Failure? && r.error != Transport ==> forall text :: !HoldsText(store.content, f, es, tag, isUtf8, text)
    ensures store.faults >= old(store.faults) && (r == Failure(Transport) ==> store.faults > old(store.faults))
  {
    var found := FindEntry(es, tag);
    if found.None? {
      return Success((None, 0));
    }
    var e := found.value;
    if e.fieldType != 2 || e.count == 0 || e.count > MAX_REMOTE_ASCII_BYTES {
      return Failure(BadValue(tag));
    }
    var raw, fetched := PrintLe(e.value, 8), 0;
    if e.count <= f.InlineWidth() {
      InlineText(store.content, f, e);
      raw := raw[..e.count];
    } else {
      raw :- ReadExactly(store, e.value, e.count);
      fetched := |raw|;
    }
    TextIsHeld(store.content, f, es, tag, isUtf8);
    if !isUtf8(raw) {
      return Failure(BadValue(tag));
    }
    return Success((Some(TrimEndNul(raw)), fetched));
  }

  /** The SampleFormat of TIFF 6.0, section 19: unsigned, signed, floating point. */
  function SampleFormat(t: SampleType): u64 {
    match t
    case U8 => 1
    case I8 => 2
    case I32 => 2
    case F32 => 3
  }

  /** The sample type of that many bits in that format. */
  lemma SampleTypeIsItsFormat(bits: u64, format: u64, t: SampleType)
    ensures SampleTypeOf(bits, format) == Success(t) <==> bits == 8 * t.Width() && format == SampleFormat(t)
  {
  }

  function SampleTypeOf(bits: u64, format: u64): Result<SampleType, LayoutError> {
    match (bits, format)
    case (8, 1) => Success(U8)
    case (8, 2) => Success(I8)
    case (32, 3) => Success(F32)
    case (32, 2) => Success(I32)
    case _ => Failure(UnsupportedLayout)
  }

  datatype Layout = Layout(format: Format, width: u64, height: u64, tileWidth: u64, tileHeight: u64,
                           scale: seq<u64>, tiepoint: seq<u64>, nodata: Option<seq<u8>>, sampleType: SampleType,
                           compression: u16, predictor: u16, offsets: Descriptor, counts: Descriptor, bytesRead: nat)

  /** Width and height of the raster. */
  datatype Extent = Extent(width: u64, height: u64)

  /** The tags of tiles and samples. */
  datatype Scalars = Scalars(tileWidth: u64, tileHeight: u64, sampleType: SampleType, compression: u64, predictor: u64)

  /** The scalars of the tags, in order, or the error of the first bad one. */
  function InlineScalarsOf(es: seq<Entry>, tags: seq<u16>): (r: Result<seq<u64>, LayoutError>)
    ensures r.Success? ==> |r.value| == |tags| && forall i :: 0 <= i < |tags| ==> r.value[i] <= U32_MAX
    ensures r.Failure? ==> r.error != Transport
  {
    if tags == [] then Success([])
    else
      var front :- InlineScalarsOf(es, tags[..|tags| - 1]);
      var last :- InlineScalarOf(es, tags[|tags| - 1]);
      Success(front + [last])
  }

  function ExtentOf(es: seq<Entry>): (r: Result<Extent, LayoutError>)
    ensures r.Success? ==> 0 < r.value.width <= U32_MAX && 0 < r.value.height <= U32_MAX
    ensures r.Failure? ==> r.error != Transport
  {
    var v :- InlineScalarsOf(es, [256, 257]);
    if v[0] == 0 || v[1] == 0 then Failure(UnsupportedLayout) else Success(Extent(v[0], v[1]))
  }

  /** The scalar tags of tiles and samples, with the layouts the reader refuses. */
  function ScalarsOf(es: seq<Entry>): (r: Result<Scalars, LayoutError>)
    ensures r.Failure? ==> r.error != Transport
  {
    var tile :- InlineScalarsOf(es, [322, 323, 258, 259]);
    var layout :- InlineScalarsOf(es, [262, 277, 284]);
    var coding :- InlineScalarsOf(es, [317, 339]);
    if layout != [1, 1, 1] then Failure(UnsupportedLayout)
    else
      var sampleType :- SampleTypeOf(tile[2], coding[1]);
      Success(Scalars(tile[0], tile[1], sampleType, tile[3], coding[0]))
  }

  /** A list of scalars is the scalars of its tags. */
  lemma {:induction false} ScalarsByTag(es: seq<Entry>, tags: seq<u16>, values: seq<u64>)
    ensures InlineScalarsOf(es, tags) == Success(values)
            <==> |values| == |tags| && forall i :: 0 <= i < |tags| ==> InlineScalarOf(es, tags[i]) == Success(values[i])
  {
    if tags != [] && |values| == |tags| {
      var last := |tags| - 1;
      ScalarsByTag(es, tags[..last], values[..last]);
      assert values == values[..last] + [values[last]];
    }
  }

  /** Width and height are the nonzero scalars of tags 256 and 257. */
  lemma ExtentByTag(es: seq<Entry>, e: Extent)
    ensures ExtentOf(es) == Success(e) <==>
              e.width > 0 && e.height > 0 && InlineScalarOf(es, 256) == Success(e.width) &&
                  InlineScalarOf(es, 257) == Success(e.height)
  {
    var tags, values := [256, 257], [e.width, e.height];
    ScalarsByTag(es, tags, values);
    assert |tags| == 2 && tags[0] == 256 && tags[1] == 257;
    if ExtentOf(es) == Success(e) {
      assert InlineScalarsOf(es, tags).value == values;
    }
  }

  /** The tags of tiles and samples, for one grayscale sample in one plane. */
  predicate TagsGive(es: seq<Entry>, s: Scalars, bits: u64, format: u64) {
    && InlineScalarOf(es, 322) == Success(s.tileWidth) && InlineScalarOf(es, 323) == Success(s.tileHeight)
    && InlineScalarOf(es, 258) == Success(bits) && InlineScalarOf(es, 259) == Success(s.compression)
    && InlineScalarOf(es, 262) == Success(1) && InlineScalarOf(es, 277) == Success(1)
    && InlineScalarOf(es, 284) == Success(1)
    && InlineScalarOf(es, 317) == Success(s.predictor) && InlineScalarOf(es, 339) == Success(format)
    && SampleTypeOf(bits, format) == Success(s.sampleType)
  }

  lemma TagGroups(es: seq<Entry>, s: Scalars, bits: u64, format: u64)
    ensures TagsGive(es, s, bits, format) <==>
              && InlineScalarsOf(es, [322, 323, 258, 259]) == Success([s.tileWidth, s.tileHeight, bits, s.compression])
              && InlineScalarsOf(es, [262, 277, 284]) == Success([1, 1, 1])
              && InlineScalarsOf(es, [317, 339]) == Success([s.predictor, format])
              && SampleTypeOf(bits, format) == Success(s.sampleType)
  {
    FourTags(es, 322, 323, 258, 259, s.tileWidth, s.tileHeight, bits, s.compression);
    ThreeTags(es, 262, 277, 284, 1, 1, 1);
    TwoTags(es, 317, 339, s.predictor, format);
  }

  lemma TwoTags(es: seq<Entry>, a: u16, b: u16, x: u64, y: u64)
    ensures InlineScalarsOf(es, [a, b]) == Success([x, y])
            <==> InlineScalarOf(es, a) == Success(x) && InlineScalarOf(es, b) == Success(y)
  {
    ScalarsByTag(es, [a, b], [x, y]);
    assert [a, b][0] == a && [a, b][1] == b;
  }

  lemma ThreeTags(es: seq<Entry>, a: u16, b: u16, c: u16, x: u64, y: u64, z: u64)
    ensures InlineScalarsOf(es, [a, b, c]) == Success([x, y, z]) <==>
              InlineScalarOf(es, a) == Success(x) && InlineScalarOf(es, b) == Success(y) &&
                  InlineScalarOf(es, c) == Success(z)
  {
    ScalarsByTag(es, [a, b, c], [x, y, z]);
    assert [a, b, c][0] == a && [a, b, c][1] == b && [a, b, c][2] == c;
  }

  lemma FourTags(es: seq<Entry>, a: u16, b: u16, c: u16, d: u16, x: u64, y: u64, z: u64, w: u64)
    ensures InlineScalarsOf(es, [a, b, c, d]) == Success([x, y, z, w]) <==>
              && InlineScalarOf(es, a) == Success(x) && InlineScalarOf(es, b) == Success(y)
              && InlineScalarOf(es, c) == Success(z) && InlineScalarOf(es, d) == Success(w)
  {
    ScalarsByTag(es, [a, b, c, d], [x, y, z, w]);
    assert [a, b, c, d][0] == a && [a, b, c, d][1] == b && [a, b, c, d][2] == c && [a, b, c, d][3] == d;
  }

  lemma ScalarsOfTags(es: seq<Entry>, s: Scalars) returns (bits: u64, format: u64)
    requires ScalarsOf(es) == Success(s)
    ensures TagsGive(es, s, bits, format)
  {
    var tile := InlineScalarsOf(es, [322, 323, 258, 259]).value;
    var coding := InlineScalarsOf(es, [317, 339]).value;
    bits, format := tile[2], coding[1];
    assert tile == [s.tileWidth, s.tileHeight, bits, s.compression] && coding == [s.predictor, format];
    TagGroups(es, s, bits, format);
  }

  lemma TagsAreScalars(es: seq<Entry>, s: Scalars, bits: u64, format: u64)
    requires TagsGive(es, s, bits, format)
    ensures ScalarsOf(es) == Success(s)
  {
    TagGroups(es, s, bits, format);
  }

  /** The scalars are those of their tags, in whatever order the tags are looked up. */
  lemma ScalarsAreTheirTags(es: seq<Entry>, s: Scalars)
    ensures ScalarsOf(es) == Success(s) <==> exists bits, format :: TagsGive(es, s, bits, format)
  {
    if ScalarsOf(es) == Success(s) {
      var bits, format := ScalarsOfTags(es, s);
    }
    if bits: u64, format: u64 :| TagsGive(es, s, bits, format) {
      TagsAreScalars(es, s, bits, format);
    }
  }

  /** The entries of tiles and samples, for one grayscale sample in one plane, spell these scalars. */
  ghost predicate SpelledSamples(f: Format, es: seq<Entry>, s: Scalars) {
    && SpelledAll(f, es, [322, 323, 259, 317], [s.tileWidth, s.tileHeight, s.compression, s.predictor])
    && SpelledAll(f, es, [258, 339], [8 * s.sampleType.Width(), SampleFormat(s.sampleType)])
    && SpelledAll(f, es, [262, 277, 284], [1, 1, 1])
  }

  /** The entries spell a raster of this extent. */
  ghost predicate SpelledExtent(f: Format, es: seq<Entry>, e: Extent) {
    e.width > 0 && e.height > 0 && SpelledAll(f, es, [256, 257], [e.width, e.height])
  }

  /** The first entry of each tag spells the value in its place. */
  ghost predicate SpelledAll(f: Format, es: seq<Entry>, tags: seq<u16>, values: seq<u64>) {
    |values| == |tags| && forall i :: 0 <= i < |tags| ==> Spelled(f, es, tags[i], values[i])
  }

  lemma SpelledTwo(f: Format, es: seq<Entry>, a: u16, b: u16, x: u64, y: u64)
    ensures SpelledAll(f, es, [a, b], [x, y]) <==> Spelled(f, es, a, x) && Spelled(f, es, b, y)
  {
    assert [a, b][0] == a && [a, b][1] == b;
  }

  lemma SpelledThree(f: Format, es: seq<Entry>, a: u16, b: u16, c: u16, x: u64, y: u64, z: u64)
    ensures SpelledAll(f, es, [a, b, c], [x, y, z]) <==>
              Spelled(f, es, a, x) && Spelled(f, es, b, y) && Spelled(f, es, c, z)
  {
    assert [a, b, c][0] == a && [a, b, c][1] == b && [a, b, c][2] == c;
  }

  lemma SpelledFour(f: Format, es: seq<Entry>, a: u16, b: u16, c: u16, d: u16, x: u64, y: u64, z: u64, w: u64)
    ensures SpelledAll(f, es, [a, b, c, d], [x, y, z, w]) <==>
              Spelled(f, es, a, x) && Spelled(f, es, b, y) && Spelled(f, es, c, z) && Spelled(f, es, d, w)
  {
    assert [a, b, c, d][0] == a && [a, b, c, d][1] == b && [a, b, c, d][2] == c && [a, b, c, d][3] == d;
  }

  lemma ExtentIsSpelled(f: Format, es: seq<Entry>, e: Extent)
    requires AllReadable(f, es)
    ensures ExtentOf(es) == Success(e) <==> SpelledExtent(f, es, e)
  {
    SpelledTwo(f, es, 256, 257, e.width, e.height);
    ExtentByTag(es, e);
    ScalarIsSpelled(f, es, 256, e.width);
    ScalarIsSpelled(f, es, 257, e.height);
  }

  lemma TagsAreSpelled(f: Format, es: seq<Entry>, s: Scalars, bits: u64, format: u64)
    requires AllReadable(f, es)
    ensures TagsGive(es, s, bits, format) <==>
              && bits == 8 * s.sampleType.Width() && format == SampleFormat(s.sampleType)
              && SpelledSamples(f, es, s)
  {
    SpelledFour(f, es, 322, 323, 259, 317, s.tileWidth, s.tileHeight, s.compression, s.predictor);
    SpelledTwo(f, es, 258, 339, 8 * s.sampleType.Width(), SampleFormat(s.sampleType));
    SpelledThree(f, es, 262, 277, 284, 1, 1, 1);
    ScalarIsSpelled(f, es, 322, s.tileWidth);
    ScalarIsSpelled(f, es, 323, s.tileHeight);
    ScalarIsSpelled(f, es, 258, bits);
    ScalarIsSpelled(f, es, 259, s.compression);
    ScalarIsSpelled(f, es, 262, 1);
    ScalarIsSpelled(f, es, 277, 1);
    ScalarIsSpelled(f, es, 284, 1);
    ScalarIsSpelled(f, es, 317, s.predictor);
    ScalarIsSpelled(f, es, 339, format);
    SampleTypeIsItsFormat(bits, format, s.sampleType);
  }

  /** The scalars are those that the entries of their tags spell, in whatever order the tags are looked up. */
  lemma ScalarsAreSpelled(f: Format, es: seq<Entry>, s: Scalars)
    requires AllReadable(f, es)
    ensures ScalarsOf(es) == Success(s) <==> SpelledSamples(f, es, s)
  {
    ScalarsAreTheirTags(es, s);
    TagsAreSpelled(f, es, s, 8 * s.sampleType.Width(), SampleFormat(s.sampleType));
    if bits: u64, format: u64 :| TagsGive(es, s, bits, format) {
      TagsAreSpelled(f, es, s, bits, format);
    }
  }

  /** The first entry of the tag stores the array. */
  ghost predicate NamesArray(f: Format, es: seq<Entry>, tag: u16, size: nat, d: Descriptor) {
    FindEntry(es, tag).Some? && StoresArray(f, FindEntry(es, tag).value, size, d)
  }

  /** The object holds this directory, and it describes the layout. */
  ghost predicate LayoutAt(content: seq<u8>, isUtf8: seq<u8> -> bool, l: Layout, at: u64, es: seq<Entry>) {
    && Acceptable(l.format, es) && HoldsDirectory(content, l.format, at, es) && DescribedBy(content, es, isUtf8, l)
  }

  /** Every dimension of a described layout fits 32 bits. */
  lemma DimensionsFit(content: seq<u8>, isUtf8: seq<u8> -> bool, l: Layout)
    requires HoldsLayout(content, isUtf8, l)
    ensures 0 < l.width <= U32_MAX && 0 < l.height <= U32_MAX && l.tileWidth <= U32_MAX && l.tileHeight <= U32_MAX
  {
    var at, es :| LayoutAt(content, isUtf8, l, at, es);
    ExtentIsSpelled(l.format, es, Extent(l.width, l.height));
    var s := ScalarsIn(l);
    ScalarsAreSpelled(l.format, es, s);
    ScalarsAreTheirTags(es, s);
  }

  /** The two index descriptors, for arrays of the same length. */
  function DescriptorsOf(f: Format, es: seq<Entry>, size: nat): (r: Result<(Descriptor, Descriptor), LayoutError>)
    requires size <= U64_MAX
    ensures r.Success? ==>
              r.value.0.WellFormed(size) && r.value.1.WellFormed(size) && r.value.0.count == r.value.1.count
    ensures r.Failure? ==> r.error != Transport
  {
    var offsetsEntry :- RequiredEntry(es, 324);
    var offsets :- RemoteDescriptor(f, offsetsEntry, size);
    var countsEntry :- RequiredEntry(es, 325);
    var counts :- RemoteDescriptor(f, countsEntry, size);
    if offsets.count != counts.count then Failure(UnsupportedLayout) else Success((offsets, counts))
  }

  /** The descriptors are the arrays of tags 324 and 325, of the same length. */
  lemma DescriptorsAreNamed(f: Format, es: seq<Entry>, size: nat, d: (Descriptor, Descriptor))
    requires size <= U64_MAX
    ensures DescriptorsOf(f, es, size) == Success(d) <==>
              NamesArray(f, es, 324, size, d.0) && NamesArray(f, es, 325, size, d.1) && d.0.count == d.1.count
  {
    if FindEntry(es, 324).Some? && FindEntry(es, 325).Some? {
      ArrayIsAccepted(f, FindEntry(es, 324).value, size, d.0);
      ArrayIsAccepted(f, FindEntry(es, 325).value, size, d.1);
    }
  }

  /** The entries of TileOffsets and TileByteCounts. */
  ghost predicate IndexEntries(es: seq<Entry>, offsets: Entry, counts: Entry) {
    FindEntry(es, 324) == Some(offsets) && FindEntry(es, 325) == Some(counts)
  }

  /** A descriptor is looked up, and read for what it holds, depending on how its entry stores it. */
  lemma IndexCondition(f: Format, es: seq<Entry>, tag: u16, size: nat, d: Descriptor)
    requires size <= U64_MAX && NamesArray(f, es, tag, size, d) && AllReadable(f, es)
    ensures d.Scalar() <==> !TwoLongs(f, FindEntry(es, tag).value)
    ensures d.Unpadded() <==> !PaddedLong(f, FindEntry(es, tag).value)
  {
    var e := FindEntry(es, tag).value;
    ArrayIsAccepted(f, e, size, d);
    LookedUpUnlessTwoLongs(f, e, size, d);
    MisreadWhenPadded(f, e, size, d);
  }

  function ScalarsIn(l: Layout): Scalars {
    Scalars(l.tileWidth, l.tileHeight, l.sampleType, l.compression, l.predictor)
  }

  /** What the entries alone say of a layout. */
  ghost predicate EntriesSay(f: Format, es: seq<Entry>, size: nat, l: Layout) {
    && SpelledExtent(f, es, Extent(l.width, l.height)) && SpelledSamples(f, es, ScalarsIn(l))
    && NamesArray(f, es, 324, size, l.offsets) && NamesArray(f, es, 325, size, l.counts)
    && l.offsets.count == l.counts.count
  }

  /** The layout says what the directory's entries, and the values they point at, say. */
  ghost predicate DescribedBy(content: seq<u8>, es: seq<Entry>, isUtf8: seq<u8> -> bool, l: Layout) {
    && |content| <= U64_MAX
    && EntriesSay(l.format, es, |content|, l)
    && HoldsDoubles(content, es, 33550, 3, l.scale) && HoldsDoubles(content, es, 33922, 6, l.tiepoint)
    && HoldsText(content, l.format, es, 42113, isUtf8, l.nodata)
  }

  lemma DescribedShape(content: seq<u8>, es: seq<Entry>, isUtf8: seq<u8> -> bool, l: Layout)
    requires DescribedBy(content, es, isUtf8, l)
    ensures |l.scale| == 3 && |l.tiepoint| == 6
    ensures l.offsets.WellFormed(|content|) && l.counts.WellFormed(|content|)
  {
  }

  ghost predicate HoldsDoubles(content: seq<u8>, es: seq<Entry>, tag: u16, count: nat, values: seq<u64>) {
    && FindEntry(es, tag).Some?
    && var e := FindEntry(es, tag).value;
       && e.fieldType == 12 && e.count == count == |values| && e.value + 8 * count <= |content|
       && forall k :: 0 <= k < count ==> IsDoubleAt(content, e, k, values[k])
  }

  /** The bits of the `k`-th double that the entry points at. */
  function DoubleAt(content: seq<u8>, e: Entry, k: nat): u64
    requires e.value + 8 * k + 8 <= |content|
  {
    Powers();
    ParseLe(content[e.value + 8 * k..e.value + 8 * k + 8])
  }

  predicate IsDoubleAt(content: seq<u8>, e: Entry, k: nat, bits: u64) {
    e.value + 8 * k + 8 <= |content| && bits == DoubleAt(content, e, k)
  }

  /** The doubles of a range are those at their places. */
  lemma DoublesAt(content: seq<u8>, e: Entry, count: nat, values: seq<u64>)
    requires e.value + 8 * count <= |content|
    ensures values == Doubles(content[e.value..e.value + 8 * count]) <==>
              |values| == count && forall k :: 0 <= k < count ==> IsDoubleAt(content, e, k, values[k])
  {
    var doubles := Doubles(content[e.value..e.value + 8 * count]);
    forall k | 0 <= k < count ensures IsDoubleAt(content, e, k, doubles[k]) {
      SliceOfSlice(content, e.value, 8 * count, 8 * k, 8);
    }
  }

  ghost predicate HoldsText(content: seq<u8>, f: Format, es: seq<Entry>, tag: u16, isUtf8: seq<u8> -> bool,
                            text: Option<seq<u8>>) {
    match FindEntry(es, tag)
    case None => text == None
    case Some(e) =>
      && e.fieldType == 2 && 0 < e.count <= MAX_REMOTE_ASCII_BYTES
      && (e.count <= f.InlineWidth() || e.value + e.count <= |content|)
      && isUtf8(AsciiBytes(content, f, e))
      && text == Some(TrimEndNul(AsciiBytes(content, f, e)))
  }

  lemma TextIsHeld(content: seq<u8>, f: Format, es: seq<Entry>, tag: u16, isUtf8: seq<u8> -> bool)
    requires FindEntry(es, tag).Some?
    requires var e := FindEntry(es, tag).value;
             && e.fieldType == 2 && 0 < e.count <= MAX_REMOTE_ASCII_BYTES
             && (e.count <= f.InlineWidth() || e.value + e.count <= |content|)
    ensures var raw := AsciiBytes(content, f, FindEntry(es, tag).value);
            if isUtf8(raw) then HoldsText(content, f, es, tag, isUtf8, Some(TrimEndNul(raw)))
            else forall text :: !HoldsText(content, f, es, tag, isUtf8, text)
  {
  }

  /** Both arrays of the transform in one request, each of them whole. */
  method FetchTransform(store: Store, scale: Range, tiepoint: Range)
    returns (r: Result<(seq<u64>, seq<u64>), LayoutError>)
    requires scale.start + 24 == scale.end <= |store.content| && tiepoint.start + 48 == tiepoint.end <= |store.content|
    modifies store
    ensures r.Success? ==> store.returned == old(store.returned) + 24 + 48
    ensures r.Success? ==> r.value.0 == Doubles(store.content[scale.start..scale.end])
                           && r.value.1 == Doubles(store.content[tiepoint.start..tiepoint.end])
    ensures store.faults >= old(store.faults)
    ensures (r.Failure? ==> r.error == Transport && store.faults > old(store.faults))
  {
    var ranges := [scale, tiepoint];
    var values := store.GetRanges(ranges);
    if values.Failure? || |values.value| != 2 || |values.value[0]| != 24 || |values.value[1]| != 48 {
      return Failure(Transport);
    }
    var first, second := values.value[0], values.value[1];
    assert first == store.content[ranges[0].start..ranges[0].end] &&
        second == store.content[ranges[1].start..ranges[1].end];
    assert values.value == [first] + [second];
    TotalLengthAppend([], first);
    TotalLengthAppend([first], second);
    return Success((Doubles(first), Doubles(second)));
  }

  /** The ranges of the transform's two arrays. */
  function TransformOf(es: seq<Entry>, size: nat): (r: Result<(Range, Range), LayoutError>)
    requires size <= U64_MAX
    ensures r.Success? ==>
              r.value.0.start + 24 == r.value.0.end <= size && r.value.1.start + 48 == r.value.1.end <= size
    ensures r.Failure? ==> r.error != Transport
  {
    var scaleEntry :- RequiredEntry(es, 33550);
    var scale :- ValueRange(scaleEntry, 3, size);
    var tiepointEntry :- RequiredEntry(es, 33922);
    var tiepoint :- ValueRange(tiepointEntry, 6, size);
    Success((scale, tiepoint))
  }

  /** What the entries alone determine: scalars, transform ranges and descriptors. */
  datatype Fields = Fields(extent: Extent, scalars: Scalars, scale: Range, tiepoint: Range, offsets: Descriptor,
                           counts: Descriptor)

  function FieldsOf(f: Format, es: seq<Entry>, size: nat): Result<Fields, LayoutError>
    requires size <= U64_MAX
  {
    var extent :- ExtentOf(es);
    var transform :- TransformOf(es, size);
    var descriptors :- DescriptorsOf(f, es, size);
    var scalars :- ScalarsOf(es);
    Success(Fields(extent, scalars, transform.0, transform.1, descriptors.0, descriptors.1))
  }

  /** The layout has these fields, and the values they point at. */
  ghost predicate Fits(content: seq<u8>, f: Format, es: seq<Entry>, isUtf8: seq<u8> -> bool, fields: Fields,
                       l: Layout) {
    && l.format == f && fields.scale.start <= fields.scale.end <= |content|
    && fields.tiepoint.start <= fields.tiepoint.end <= |content|
    && (fields.scale.end - fields.scale.start) % 8 == 0 && (fields.tiepoint.end - fields.tiepoint.start) % 8 == 0
    && fields.extent == Extent(l.width, l.height)
    && fields.scalars == ScalarsIn(l)
    && fields.offsets == l.offsets && fields.counts == l.counts
    && l.scale == Doubles(content[fields.scale.start..fields.scale.end])
    && l.tiepoint == Doubles(content[fields.tiepoint.start..fields.tiepoint.end])
    && HoldsText(content, f, es, 42113, isUtf8, l.nodata)
  }

  ghost predicate NothingDescribed(content: seq<u8>, f: Format, es: seq<Entry>, isUtf8: seq<u8> -> bool) {
    forall l: Layout :: l.format == f ==> !DescribedBy(content, es, isUtf8, l)
  }

  lemma DoublesInRange(content: seq<u8>, es: seq<Entry>, tag: u16, count: u64, values: seq<u64>)
    requires |content| <= U64_MAX && 8 * count <= MAX_REMOTE_METADATA_VALUE_BYTES
    ensures HoldsDoubles(content, es, tag, count, values) <==>
              && RequiredEntry(es, tag).Success? && ValueRange(RequiredEntry(es, tag).value, count, |content|).Success?
              && var range := ValueRange(RequiredEntry(es, tag).value, count, |content|).value;
                 values == Doubles(content[range.start..range.end])
  {
    if FindEntry(es, tag).Some? && FindEntry(es, tag).value.value + 8 * count <= |content| {
      DoublesAt(content, FindEntry(es, tag).value, count, values);
    }
  }

  lemma TransformMeaning(content: seq<u8>, es: seq<Entry>, scale: seq<u64>, tiepoint: seq<u64>)
    requires |content| <= U64_MAX
    ensures HoldsDoubles(content, es, 33550, 3, scale) && HoldsDoubles(content, es, 33922, 6, tiepoint) <==>
              && TransformOf(es, |content|).Success?
              && var ranges := TransformOf(es, |content|).value;
                 scale == Doubles(content[ranges.0.start..ranges.0.end]) &&
                     tiepoint == Doubles(content[ranges.1.start..ranges.1.end])
  {
    DoublesInRange(content, es, 33550, 3, scale);
    DoublesInRange(content, es, 33922, 6, tiepoint);
  }

  lemma FieldsOfParts(f: Format, es: seq<Entry>, size: nat, fields: Fields)
    requires size <= U64_MAX
    requires ExtentOf(es) == Success(fields.extent) && TransformOf(es, size) == Success((fields.scale, fields.tiepoint))
    requires DescriptorsOf(f, es, size) == Success((fields.offsets, fields.counts))
    requires ScalarsOf(es) == Success(fields.scalars)
    ensures FieldsOf(f, es, size) == Success(fields)
  {
  }

  /** What the entries alone determine of the layout, as the program computes it. */
  lemma PartsOfLayout(f: Format, es: seq<Entry>, size: nat, l: Layout)
    requires size <= U64_MAX && l.format == f && AllReadable(f, es)
    ensures EntriesSay(f, es, size, l) <==>
              && ExtentOf(es) == Success(Extent(l.width, l.height)) && ScalarsOf(es) == Success(ScalarsIn(l))
              && DescriptorsOf(f, es, size) == Success((l.offsets, l.counts))
  {
    ExtentIsSpelled(f, es, Extent(l.width, l.height));
    ScalarsAreSpelled(f, es, ScalarsIn(l));
    DescriptorsAreNamed(f, es, size, (l.offsets, l.counts));
  }

  lemma DescribedFits(content: seq<u8>, f: Format, es: seq<Entry>, isUtf8: seq<u8> -> bool, l: Layout)
    requires |content| <= U64_MAX && l.format == f && AllReadable(f, es) && DescribedBy(content, es, isUtf8, l)
    ensures FieldsOf(f, es, |content|).Success? && Fits(content, f, es, isUtf8, FieldsOf(f, es, |content|).value, l)
  {
    PartsOfLayout(f, es, |content|, l);
    TransformMeaning(content, es, l.scale, l.tiepoint);
    var ranges := TransformOf(es, |content|).value;
    var fields := Described(l, ranges.0, ranges.1);
    FieldsOfParts(f, es, |content|, fields);
    DescribedFitsFields(content, f, es, isUtf8, l, fields);
  }

  /** The fields of a layout whose doubles stand at these ranges. */
  function Described(l: Layout, scale: Range, tiepoint: Range): Fields {
    Fields(Extent(l.width, l.height), ScalarsIn(l), scale, tiepoint, l.offsets, l.counts)
  }

  lemma DescribedFitsFields(content: seq<u8>, f: Format, es: seq<Entry>, isUtf8: seq<u8> -> bool, l: Layout,
                            fields: Fields)
    requires |content| <= U64_MAX && l.format == f && HoldsText(content, f, es, 42113, isUtf8, l.nodata)
    requires TransformOf(es, |content|) == Success((fields.scale, fields.tiepoint))
    requires fields == Described(l, fields.scale, fields.tiepoint)
    requires l.scale == Doubles(content[fields.scale.start..fields.scale.end])
    requires l.tiepoint == Doubles(content[fields.tiepoint.start..fields.tiepoint.end])
    ensures Fits(content, f, es, isUtf8, fields, l)
  {
  }

  lemma FitsDescribed(content: seq<u8>, f: Format, es: seq<Entry>, isUtf8: seq<u8> -> bool, l: Layout)
    requires |content| <= U64_MAX && l.format == f && AllReadable(f, es)
    requires FieldsOf(f, es, |content|).Success? && Fits(content, f, es, isUtf8, FieldsOf(f, es, |content|).value, l)
    ensures DescribedBy(content, es, isUtf8, l)
  {
    PartsOfLayout(f, es, |content|, l);
    TransformMeaning(content, es, l.scale, l.tiepoint);
  }

  /** The entries describe a layout exactly when it fits their fields. */
  lemma FieldsMeaning(content: seq<u8>, f: Format, es: seq<Entry>, isUtf8: seq<u8> -> bool, l: Layout)
    requires |content| <= U64_MAX && l.format == f && AllReadable(f, es)
    ensures DescribedBy(content, es, isUtf8, l) <==>
              FieldsOf(f, es, |content|).Success? && Fits(content, f, es, isUtf8, FieldsOf(f, es, |content|).value, l)
  {
    if DescribedBy(content, es, isUtf8, l) {
      DescribedFits(content, f, es, isUtf8, l);
    } else if FieldsOf(f, es, |content|).Success? && Fits(content, f, es, isUtf8, FieldsOf(f, es, |content|).value, l) {
      FitsDescribed(content, f, es, isUtf8, l);
    }
  }

  /** Compute the fields; without them nothing is described. */
  method ComputeFields(content: seq<u8>, f: Format, es: seq<Entry>, isUtf8: seq<u8> -> bool)
    returns (r: Result<Fields, LayoutError>)
    requires |content| <= U64_MAX && AllReadable(f, es)
    ensures r.Success? ==> r.value.scale.start + 24 == r.value.scale.end <= |content|
                           && r.value.tiepoint.start + 48 == r.value.tiepoint.end <= |content|
    ensures r.Failure? ==> r.error != Transport && NothingDescribed(content, f, es, isUtf8)
    ensures r.Success? ==> forall l: Layout :: l.format == f ==>
              (DescribedBy(content, es, isUtf8, l) <==> Fits(content, f, es, isUtf8, r.value, l))
  {
    r := FieldsOf(f, es, |content|);
    forall l: Layout | l.format == f
      ensures DescribedBy(content, es, isUtf8, l) <==> r.Success? && Fits(content, f, es, isUtf8, r.value, l)
    {
      FieldsMeaning(content, f, es, isUtf8, l);
    }
  }

  /** Fetch what the fields point at. */
  method FetchFields(store: Store, f: Format, es: seq<Entry>, isUtf8: seq<u8> -> bool, fields: Fields)
    returns (r: Result<Layout, LayoutError>)
    requires |store.content| <= U64_MAX
    requires fields.scale.start + 24 == fields.scale.end <= |store.content|
    requires fields.tiepoint.start + 48 == fields.tiepoint.end <= |store.content|
    modifies store
    ensures r.Success? ==> Fits(store.content, f, es, isUtf8, fields, r.value)
    ensures r.Success? ==> r.value.bytesRead == store.returned - old(store.returned) <= MAX_REMOTE_ASCII_BYTES + 24 + 48
    ensures r.Failure? && r.error != Transport ==> forall l :: !Fits(store.content, f, es, isUtf8, fields, l)
    ensures store.faults >= old(store.faults) && (r == Failure(Transport) ==> store.faults > old(store.faults))
  {
    var scalars := fields.scalars;
    var ascii :- RemoteAscii(store, f, es, 42113, isUtf8);
    var transform :- FetchTransform(store, fields.scale, fields.tiepoint);
    if scalars.compression > 0xFFFF || scalars.predictor > 0xFFFF {
      return Failure(UnsupportedLayout);
    }
    return Success(Layout(f, fields.extent.width, fields.extent.height, scalars.tileWidth, scalars.tileHeight,
                          transform.0, transform.1, ascii.0, scalars.sampleType, scalars.compression, scalars.predictor,
                          fields.offsets, fields.counts, 24 + 48 + ascii.1));
  }

  /** Everything after the directory: tags, transform, text and descriptors. */
  method ReadFields(store: Store, f: Format, es: seq<Entry>, isUtf8: seq<u8> -> bool)
    returns (r: Result<Layout, LayoutError>)
    requires |store.content| <= U64_MAX && AllReadable(f, es)
    modifies store
    ensures r.Success? ==> r.value.format == f && DescribedBy(store.content, es, isUtf8, r.value)
    ensures r.Success? ==> r.value.bytesRead == store.returned - old(store.returned) <= MAX_REMOTE_ASCII_BYTES + 24 + 48
    ensures r.Failure? && r.error != Transport ==> NothingDescribed(store.content, f, es, isUtf8)
    ensures store.faults >= old(store.faults) && (r == Failure(Transport) ==> store.faults > old(store.faults))
  {
    var fields := ComputeFields(store.content, f, es, isUtf8);
    if fields.Failure? {
      return Failure(fields.error);
    }
    r := FetchFields(store, f, es, isUtf8, fields.value);
  }

  /** The object holds a directory that describes the layout. */
  ghost predicate HoldsLayout(content: seq<u8>, isUtf8: seq<u8> -> bool, l: Layout) {
    exists at, es :: LayoutAt(content, isUtf8, l, at, es)
  }

  lemma EntriesSayOnce(f: Format, es: seq<Entry>, size: nat, l: Layout, l': Layout)
    requires size <= U64_MAX && l.format == f == l'.format && AllReadable(f, es)
    requires EntriesSay(f, es, size, l) && EntriesSay(f, es, size, l')
    ensures Extent(l.width, l.height) == Extent(l'.width, l'.height) && ScalarsIn(l) == ScalarsIn(l')
    ensures l.offsets == l'.offsets && l.counts == l'.counts
  {
    PartsOfLayout(f, es, size, l);
    PartsOfLayout(f, es, size, l');
  }

  lemma DoublesUnique(content: seq<u8>, es: seq<Entry>, tag: u16, count: nat, a: seq<u64>, b: seq<u64>)
    requires HoldsDoubles(content, es, tag, count, a) && HoldsDoubles(content, es, tag, count, b)
    ensures a == b
  {
    var e := FindEntry(es, tag).value;
    forall k | 0 <= k < count ensures a[k] == b[k] {
      assert IsDoubleAt(content, e, k, a[k]) && IsDoubleAt(content, e, k, b[k]);
    }
  }

  lemma DescribedUnique(content: seq<u8>, es: seq<Entry>, isUtf8: seq<u8> -> bool, l: Layout, l': Layout)
    requires l.format == l'.format && AllReadable(l.format, es)
    requires DescribedBy(content, es, isUtf8, l) && DescribedBy(content, es, isUtf8, l')
    ensures l.(bytesRead := 0) == l'.(bytesRead := 0)
  {
    EntriesSayOnce(l.format, es, |content|, l, l');
    DoublesUnique(content, es, 33550, 3, l.scale, l'.scale);
    DoublesUnique(content, es, 33922, 6, l.tiepoint, l'.tiepoint);
  }

  /** An object holds at most one layout. */
  lemma LayoutUnique(content: seq<u8>, isUtf8: seq<u8> -> bool, l: Layout, l': Layout)
    requires HoldsLayout(content, isUtf8, l) && HoldsLayout(content, isUtf8, l')
    ensures l.(bytesRead := 0) == l'.(bytesRead := 0)
  {
    var at, es :| LayoutAt(content, isUtf8, l, at, es);
    LayoutOfDirectory(content, isUtf8, l', l.format, at, es);
    DescribedUnique(content, es, isUtf8, l, l');
  }

  /** The layout is described by the one directory of the object. */
  lemma LayoutOfDirectory(content: seq<u8>, isUtf8: seq<u8> -> bool, l: Layout, f: Format, at: u64, es: seq<Entry>)
    requires HoldsLayout(content, isUtf8, l) && Acceptable(f, es) && HoldsDirectory(content, f, at, es)
    ensures l.format == f && DescribedBy(content, es, isUtf8, l)
  {
    var at', es' :| LayoutAt(content, isUtf8, l, at', es');
    DirectoryUnique(content, f, at, es, l.format, at', es');
  }

  /** How many bytes a layout took does not matter. */
  lemma LayoutIsHeld(content: seq<u8>, isUtf8: seq<u8> -> bool, l: Layout, at: u64, es: seq<Entry>, m: Layout)
    requires LayoutAt(content, isUtf8, l, at, es)
    requires m == l.(bytesRead := m.bytesRead)
    ensures HoldsLayout(content, isUtf8, m)
  {
    assert EntriesSay(m.format, es, |content|, m);
    assert LayoutAt(content, isUtf8, m, at, es);
  }

  lemma NoLayout(content: seq<u8>, isUtf8: seq<u8> -> bool, f: Format, at: u64, es: seq<Entry>)
    requires Acceptable(f, es) && HoldsDirectory(content, f, at, es)
    requires NothingDescribed(content, f, es, isUtf8)
    ensures forall l :: !HoldsLayout(content, isUtf8, l)
  {
    forall l | HoldsLayout(content, isUtf8, l) ensures false {
      LayoutOfDirectory(content, isUtf8, l, f, at, es);
    }
  }

  /** Everything after the directory, counted on top of it. */
  method ReadLayoutOf(store: Store, isUtf8: seq<u8> -> bool, d: Directory) returns (r: Result<Layout, LayoutError>)
    requires |store.content| <= U64_MAX
    requires Acceptable(d.format, d.entries) && HoldsDirectory(store.content, d.format, d.offset, d.entries)
    modifies store
    ensures r.Success? ==> HoldsLayout(store.content, isUtf8, r.value)
    ensures r.Success? ==> r.value.bytesRead == d.bytesRead + (store.returned - old(store.returned))
    ensures r.Success? ==> store.returned - old(store.returned) <= MAX_REMOTE_ASCII_BYTES + 24 + 48
    ensures r.Failure? && r.error != Transport ==> forall l :: !HoldsLayout(store.content, isUtf8, l)
    ensures store.faults >= old(store.faults) && (r == Failure(Transport) ==> store.faults > old(store.faults))
  {
    var layout := ReadFields(store, d.format, d.entries, isUtf8);
    if layout.Failure? {
      if layout.error != Transport {
        NoLayout(store.content, isUtf8, d.format, d.offset, d.entries);
      }
      return Failure(layout.error);
    }
    var l := layout.value.(bytesRead := d.bytesRead + layout.value.bytesRead);
    LayoutIsHeld(store.content, isUtf8, layout.value, d.offset, d.entries, l);
    return Success(l);
  }

  /**
    `read_remote_layout`.  Unless the store fails, it returns the layout that the object's
    directory describes, and fails exactly when there is none; the bytes it costs are all
    accounted for and bounded whatever the raster's size.
   */
  method ReadRemoteLayout(store: Store, isUtf8: seq<u8> -> bool) returns (r: Result<Layout, LayoutError>)
    requires |store.content| <= U64_MAX
    modifies store
    ensures r.Success? ==> r.value.bytesRead == store.returned - old(store.returned) <= MAX_LAYOUT_BYTES
    ensures r.Success? ==> HoldsLayout(store.content, isUtf8, r.value)
    ensures r.Failure? && r.error != Transport ==> forall l :: !HoldsLayout(store.content, isUtf8, l)
    ensures store.faults >= old(store.faults) && (r == Failure(Transport) ==> store.faults > old(store.faults))
  {
    var directory := ReadDirectory(store);
    if directory.Failure? {
      return Failure(directory.error);
    }
    r := ReadLayoutOf(store, isUtf8, directory.value);
  }
}
