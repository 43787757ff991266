/**
  The TIFF image file directory (TIFF 6.0, section 2, and its BigTIFF variant) as the remote
  reader walks it.  The reference is a printer: a directory is whatever the printer would
  have written, and reading is its inverse.
 */
module TiffDirectory {
  import opened Prelude
  import opened ObjectStore

  const MAX_REMOTE_IFD_ENTRIES: int := 4_096
  const MAX_REMOTE_IFD_ENTRY_BYTES: int := 65_536

  datatype Format = Classic | BigTiff {
    function InlineWidth(): u64 {
      if Classic? then 4 else 8
    }

    function CountWidth(): u64 {
      if Classic? then 2 else 8
    }

    function EntryWidth(): u64 {
      if Classic? then 12 else 20
    }

    function Magic(): u16 {
      if Classic? then 42 else 43
    }

    /** Largest count, value or offset an entry of this format can hold. */
    function MaxValue(): u64 {
      if Classic? then U32_MAX else U64_MAX
    }
  }

  datatype Entry = Entry(tag: u16, fieldType: u16, count: u64, value: u64)

  /** Width of the field types that the reader supports. */
  function FieldWidth(fieldType: u16): Option<u64> {
    match fieldType
    case 1 => Some(1)
    case 2 => Some(1)
    case 3 => Some(2)
    case 4 => Some(4)
    case 5 => Some(8)
    case 12 => Some(8)
    case 16 => Some(8)
    case _ => None
  }

  // ---- Little-endian numbers ----------------------------------------------------------

  function Pow256(n: nat): (p: nat)
    ensures p > 0
  {
    if n == 0 then 1 else 0x100 * Pow256(n - 1)
  }

  /** The `n` low bytes of a number, least significant first. */
  function PrintLe(v: nat, n: nat): (b: seq<u8>)
    ensures |b| == n
  {
    if n == 0 then [] else [v % 0x100] + PrintLe(v / 0x100, n - 1)
  }

  function ParseLe(b: seq<u8>): (v: nat)
    ensures v < Pow256(|b|)
  {
    if b == [] then 0 else b[0] + 0x100 * ParseLe(b[1..])
  }

  lemma Carry(x: int, p: int, q: int, low: int, high: int)
    requires q == 0x100 * p
    ensures x + 0x100 * (low + p * high) == (x + 0x100 * low) + q * high
  {
    assert (0x100 * p) * high == 0x100 * (p * high);
  }

  /** The least significant byte stands first, at every width. */
  lemma {:induction false} LittleEndian(b: seq<u8>, n: nat)
    requires n <= |b|
    ensures ParseLe(b) == ParseLe(b[..n]) + Pow256(n) * ParseLe(b[n..])
    ensures |b| == 1 ==> ParseLe(b) == b[0]
  {
    if n == 0 {
      assert b[0..] == b && b[..0] == [];
    } else {
      LittleEndian(b[1..], n - 1);
      SplitTail(b, n);
      Carry(b[0], Pow256(n - 1), Pow256(n), ParseLe(b[1..][..n - 1]), ParseLe(b[n..]));
    }
    assert |b| == 1 ==> b[1..] == [];
  }

  lemma SplitTail(b: seq<u8>, n: nat)
    requires 0 < n <= |b|
    ensures b[1..][n - 1..] == b[n..]
    ensures ParseLe(b[..n]) == b[0] + 0x100 * ParseLe(b[1..][..n - 1])
  {
    assert b[..n][1..] == b[1..][..n - 1];
  }

  lemma {:induction false} ParsePrinted(v: nat, n: nat)
    requires v < Pow256(n)
    ensures ParseLe(PrintLe(v, n)) == v
  {
    if n > 0 {
      ParsePrinted(v / 0x100, n - 1);
      assert PrintLe(v, n)[1..] == PrintLe(v / 0x100, n - 1);
    }
  }

  lemma {:induction false} PrintParsed(b: seq<u8>)
    ensures PrintLe(ParseLe(b), |b|) == b
  {
    if b != [] {
      PrintParsed(b[1..]);
      var v := ParseLe(b);
      assert v % 0x100 == b[0] && v / 0x100 == ParseLe(b[1..]);
    }
  }

  lemma Powers()
    ensures Pow256(2) == 0x1_0000 && Pow256(4) == U32_MAX + 1 && Pow256(8) == U64_MAX + 1
  {
    assert Pow256(3) == 0x100_0000;
    assert Pow256(5) == 0x100_0000_0000;
    assert Pow256(6) == 0x1_0000_0000_0000;
  }

  // ---- Entries ------------------------------------------------------------------------

  /** BYTE, ASCII, SHORT, LONG, RATIONAL (TIFF 6.0, section 2), DOUBLE and the LONG8 of BigTIFF. */
  predicate KnownType(fieldType: u16) {
    1 <= fieldType <= 5 || fieldType == 12 || fieldType == 16
  }

  predicate Readable(f: Format, e: Entry) {
    e.count <= f.MaxValue() && e.value <= f.MaxValue() && KnownType(e.fieldType)
  }

  /** An entry is accepted exactly with a known field type, and is then the one whose bytes were read. */
  lemma AcceptedEntry(f: Format, e: Entry)
    requires e.count <= f.MaxValue() && e.value <= f.MaxValue()
    ensures ParseEntry(f, PrintEntry(f, e)) == Some(e) <==> KnownType(e.fieldType)
    ensures ParseEntry(f, PrintEntry(f, e)).None? <==> !KnownType(e.fieldType)
  {
    ReadPrintedEntry(f, e);
  }

  predicate AllReadable(f: Format, es: seq<Entry>) {
    forall i :: 0 <= i < |es| ==> Readable(f, es[i])
  }

  function PrintEntry(f: Format, e: Entry): (b: seq<u8>)
    ensures |b| == f.EntryWidth()
  {
    var w := f.InlineWidth();
    PrintLe(e.tag, 2) + PrintLe(e.fieldType, 2) + PrintLe(e.count, w) + PrintLe(e.value, w)
  }

  function RawEntry(f: Format, b: seq<u8>): (e: Entry)
    requires |b| == f.EntryWidth()
    ensures e.count <= f.MaxValue() && e.value <= f.MaxValue()
  {
    Powers();
    var w := f.InlineWidth();
    Entry(ParseLe(b[..2]), ParseLe(b[2..4]), ParseLe(b[4..4 + w]), ParseLe(b[4 + w..]))
  }

  /** `remote_ifd_entry`: an unsupported field type is an error. */
  function ParseEntry(f: Format, b: seq<u8>): Option<Entry>
    requires |b| == f.EntryWidth()
  {
    var e := RawEntry(f, b);
    if FieldWidth(e.fieldType).Some? then Some(e) else None
  }

  /** Printing an entry and reading it back gives the entry. */
  lemma ReadPrintedEntry(f: Format, e: Entry)
    requires e.count <= f.MaxValue() && e.value <= f.MaxValue()
    ensures RawEntry(f, PrintEntry(f, e)) == e
  {
    Powers();
    var w, p := f.InlineWidth(), PrintEntry(f, e);
    assert p[..2] == PrintLe(e.tag, 2) && p[2..4] == PrintLe(e.fieldType, 2);
    assert p[4..4 + w] == PrintLe(e.count, w) && p[4 + w..] == PrintLe(e.value, w);
    ParsePrinted(e.tag, 2);
    ParsePrinted(e.fieldType, 2);
    ParsePrinted(e.count, w);
    ParsePrinted(e.value, w);
  }

  /** Reading the bytes of an entry and printing it gives the bytes. */
  lemma PrintReadEntry(f: Format, b: seq<u8>)
    requires |b| == f.EntryWidth()
    ensures PrintEntry(f, RawEntry(f, b)) == b
  {
    var w := f.InlineWidth();
    PrintParsed(b[..2]);
    PrintParsed(b[2..4]);
    PrintParsed(b[4..4 + w]);
    PrintParsed(b[4 + w..]);
    assert b == b[..2] + b[2..4] + b[4..4 + w] + b[4 + w..];
  }

  /** Bytes taken by `n` entries. */
  function EntriesLength(f: Format, n: nat): nat {
    if f.Classic? then 12 * n else 20 * n
  }

  function PrintEntries(f: Format, es: seq<Entry>): (b: seq<u8>)
    ensures |b| == EntriesLength(f, |es|)
  {
    if es == [] then [] else PrintEntries(f, es[..|es| - 1]) + PrintEntry(f, es[|es| - 1])
  }

  lemma PrintAppended(f: Format, es: seq<Entry>, e: Entry)
    ensures PrintEntries(f, es + [e]) == PrintEntries(f, es) + PrintEntry(f, e)
  {
    assert (es + [e])[..|es|] == es;
  }

  /** The `i`-th chunk of a printed directory is the `i`-th entry. */
  lemma {:induction false} PrintedSlice(f: Format, es: seq<Entry>, i: nat)
    requires i < |es|
    ensures EntriesLength(f, i) + f.EntryWidth() == EntriesLength(f, i + 1) <= |PrintEntries(f, es)|
    ensures PrintEntries(f, es)[EntriesLength(f, i)..EntriesLength(f, i + 1)] == PrintEntry(f, es[i])
    decreases |es|
  {
    var front := es[..|es| - 1];
    PrintAppended(f, front, es[|es| - 1]);
    assert front + [es[|es| - 1]] == es;
    if i < |front| {
      PrintedSlice(f, front, i);
      SliceOfPrefix(PrintEntries(f, front), PrintEntry(f, es[|es| - 1]), EntriesLength(f, i), EntriesLength(f, i + 1));
    }
  }

  lemma SliceOfPrefix(p: seq<u8>, q: seq<u8>, from: nat, to: nat)
    requires from <= to <= |p|
    ensures (p + q)[from..to] == p[from..to]
  {
  }

  /** Two lists of readable entries that print alike are the same list. */
  lemma PrintEntriesInjective(f: Format, xs: seq<Entry>, ys: seq<Entry>)
    requires AllReadable(f, xs) && AllReadable(f, ys)
    requires PrintEntries(f, xs) == PrintEntries(f, ys)
    ensures xs == ys
  {
    forall i | 0 <= i < |xs| ensures xs[i] == ys[i] {
      PrintedSlice(f, xs, i);
      PrintedSlice(f, ys, i);
      ReadPrintedEntry(f, xs[i]);
      ReadPrintedEntry(f, ys[i]);
    }
  }

  lemma ReadableChunk(f: Format, es: seq<Entry>, i: nat)
    requires i < |es| && AllReadable(f, es)
    ensures EntriesLength(f, i) + f.EntryWidth() == EntriesLength(f, i + 1) <= |PrintEntries(f, es)|
    ensures ParseEntry(f, PrintEntries(f, es)[EntriesLength(f, i)..EntriesLength(f, i + 1)]).Some?
  {
    PrintedSlice(f, es, i);
    ReadPrintedEntry(f, es[i]);
  }

  /** A block with an unsupported field type is printed by no list of readable entries. */
  lemma UnreadableChunk(f: Format, block: seq<u8>, count: nat, i: nat)
    requires |block| == EntriesLength(f, count) && i < count
    requires EntriesLength(f, i) + f.EntryWidth() == EntriesLength(f, i + 1) <= |block|
    requires ParseEntry(f, block[EntriesLength(f, i)..EntriesLength(f, i + 1)]).None?
    ensures !exists es :: AllReadable(f, es) && PrintEntries(f, es) == block
  {
    forall es | AllReadable(f, es) && PrintEntries(f, es) == block ensures false {
      ReadableChunk(f, es, i);
    }
  }

  lemma ChunkAppended(block: seq<u8>, at: nat, width: nat)
    requires at + width <= |block|
    ensures block[..at + width] == block[..at] + block[at..at + width]
  {
  }

  /** One more chunk read is one more entry printed. */
  lemma NextEntry(f: Format, entries: seq<Entry>, chunk: seq<u8>, entry: Entry)
    requires |chunk| == f.EntryWidth() && ParseEntry(f, chunk) == Some(entry)
    ensures Readable(f, entry)
    ensures PrintEntries(f, entries + [entry]) == PrintEntries(f, entries) + chunk
  {
    PrintReadEntry(f, chunk);
    PrintAppended(f, entries, entry);
  }

  /** Reading one more chunk keeps the entries readable and their printing the part of the block read so far. */
  lemma ReadOn(f: Format, block: seq<u8>, at: nat, entries: seq<Entry>, entry: Entry)
    requires at + f.EntryWidth() <= |block| && ParseEntry(f, block[at..at + f.EntryWidth()]) == Some(entry)
    requires AllReadable(f, entries) && PrintEntries(f, entries) == block[..at]
    ensures AllReadable(f, entries + [entry]) && PrintEntries(f, entries + [entry]) == block[..at + f.EntryWidth()]
  {
    NextEntry(f, entries, block[at..at + f.EntryWidth()], entry);
    ChunkAppended(block, at, f.EntryWidth());
  }

  lemma EntryInBlock(f: Format, i: nat, count: nat)
    requires i < count
    ensures EntriesLength(f, i) + f.EntryWidth() == EntriesLength(f, i + 1) <= EntriesLength(f, count)
  {
  }

  /** Cutting the entry block into chunks of one entry and reading each inverts the printer. */
  method ParseEntries(f: Format, block: seq<u8>, count: nat) returns (r: Option<seq<Entry>>)
    requires |block| == EntriesLength(f, count)
    ensures r.Some? ==> |r.value| == count && AllReadable(f, r.value) && PrintEntries(f, r.value) == block
    ensures r.None? ==> !exists es :: AllReadable(f, es) && PrintEntries(f, es) == block
  {
    var entries: seq<Entry> := [];
    var width := f.EntryWidth();
    var at: nat := 0;
    for i := 0 to count
      invariant |entries| == i && at == EntriesLength(f, i) <= |block|
      invariant AllReadable(f, entries)
      invariant PrintEntries(f, entries) == block[..at]
    {
      EntryInBlock(f, i, count);
      var entry := ParseEntry(f, block[at..at + width]);
      if entry.None? {
        UnreadableChunk(f, block, count, i);
        return None;
      }
      ReadOn(f, block, at, entries, entry.value);
      entries := entries + [entry.value];
      at := at + width;
    }
    assert block[..at] == block;
    return Some(entries);
  }

  // ---- The directory in the file ------------------------------------------------------

  const HEADER_BYTES: int := 16

  /** The file starts with a little-endian header of format `f` pointing at offset `at`. */
  predicate HasHeader(file: seq<u8>, f: Format, at: u64) {
    && |file| >= HEADER_BYTES
    && file[0..2] == [0x49, 0x49]
    && file[2..4] == PrintLe(f.Magic(), 2)
    && match f
       case Classic => at <= U32_MAX && file[4..8] == PrintLe(at, 4)
       case BigTiff => file[4..6] == PrintLe(8, 2) && file[6..8] == PrintLe(0, 2) && file[8..16] == PrintLe(at, 8)
  }

  /** A list of entries that the reader accepts as a whole directory. */
  predicate Acceptable(f: Format, es: seq<Entry>) {
    && AllReadable(f, es)
    && 0 < |es| <= MAX_REMOTE_IFD_ENTRIES
    && EntriesLength(f, |es|) <= MAX_REMOTE_IFD_ENTRY_BYTES
  }

  /** The printed directory `es` follows the header, its count and entries inside the file. */
  predicate HoldsDirectory(file: seq<u8>, f: Format, at: u64, es: seq<Entry>) {
    && HasHeader(file, f, at)
    && at + f.CountWidth() + EntriesLength(f, |es|) <= |file|
    && |es| < Pow256(f.CountWidth())
    && file[at..at + f.CountWidth()] == PrintLe(|es|, f.CountWidth())
    && file[at + f.CountWidth()..at + f.CountWidth() + EntriesLength(f, |es|)] == PrintEntries(f, es)
  }

  /** The directory byte by byte: a count of two bytes and entries of twelve, or of eight and twenty in BigTIFF. */
  lemma DirectoryIsSpelled(file: seq<u8>, f: Format, at: u64, es: seq<Entry>)
    requires HasHeader(file, f, at)
    ensures HoldsDirectory(file, f, at, es) <==>
              var (counted, spelled) := if f.Classic? then (2, 12 * |es|) else (8, 20 * |es|);
              var from := at + counted;
              && from + spelled <= |file| && |es| <= (if f.Classic? then 0xFFFF else U64_MAX)
              && file[at..from] == PrintLe(|es|, counted) && file[from..from + spelled] == PrintEntries(f, es)
  {
    Powers();
  }

  datatype LayoutError =
    | Transport
    | OutOfObject
    | BadHeader
    | BadDirectory
    | MissingTag(tag: u16)
    | BadValue(tag: u16)
    | UnsupportedLayout

  datatype Directory = Directory(format: Format, offset: u64, entries: seq<Entry>, bytesRead: nat)

  function ParseHeader(h: seq<u8>): Result<(Format, u64), LayoutError>
    requires |h| == HEADER_BYTES
  {
    Powers();
    var magic := ParseLe(h[2..4]);
    if h[0..2] != [0x49, 0x49] then Failure(BadHeader)
    else if magic == 42 then Success((Classic, ParseLe(h[4..8])))
    else if magic != 43 then Failure(BadHeader)
    else if ParseLe(h[4..6]) != 8 || ParseLe(h[6..8]) != 0 then Failure(BadHeader)
    else Success((BigTiff, ParseLe(h[8..16])))
  }

  /** The header is read as exactly the format and offset it was printed for. */
  lemma HeaderRoundTrip(file: seq<u8>, f: Format, at: u64)
    requires |file| >= HEADER_BYTES
    ensures HasHeader(file, f, at) <==> ParseHeader(file[..HEADER_BYTES]) == Success((f, at))
  {
    Powers();
    var h := file[..HEADER_BYTES];
    assert h[0..2] == file[0..2] && h[2..4] == file[2..4] && h[4..8] == file[4..8];
    assert h[4..6] == file[4..6] && h[6..8] == file[6..8] && h[8..16] == file[8..16];
    SpelledNumber(file[2..4], f.Magic());
    if f.Classic? {
      SpelledNumber(file[4..8], at);
    } else {
      SpelledNumber(file[4..6], 8);
      SpelledNumber(file[6..8], 0);
      SpelledNumber(file[8..16], at);
    }
  }

  /** Bytes spell a number exactly when reading them gives it. */
  lemma SpelledNumber(b: seq<u8>, v: nat)
    ensures v < Pow256(|b|) && b == PrintLe(v, |b|) <==> ParseLe(b) == v
  {
    if v < Pow256(|b|) {
      ParsePrinted(v, |b|);
    }
    PrintParsed(b);
  }

  /** A read of `length` bytes at `start`, refused when it would leave the object. */
  method ReadExactly(store: Store, start: u64, length: nat) returns (r: Result<seq<u8>, LayoutError>)
    requires |store.content| <= U64_MAX
    modifies store
    ensures r.Success? ==> start + length <= |store.content| && r.value == store.content[start..start + length]
    ensures r.Success? ==> store.returned == old(store.returned) + length
    ensures r.Failure? ==> r.error == Transport || (r.error == OutOfObject && start + length > |store.content|)
    ensures store.faults >= old(store.faults) && (r == Failure(Transport) ==> store.faults > old(store.faults))
  {
    if start + length > |store.content| {
      return Failure(OutOfObject);
    }
    var response := store.GetRange(Range(start, start + length));
    if response.Failure? || |response.value| != length {
      return Failure(Transport);
    }
    assert response.value == store.content[start..start + length];
    return Success(response.value);
  }

  /** Everything the walk reads is determined by the directory the file holds. */
  lemma WalkOf(file: seq<u8>, f: Format, at: u64, es: seq<Entry>)
    requires Acceptable(f, es) && HoldsDirectory(file, f, at, es)
    ensures ParseHeader(file[..HEADER_BYTES]) == Success((f, at))
    ensures ParseLe(file[at..at + f.CountWidth()]) == |es|
  {
    HeaderRoundTrip(file, f, at);
    SpelledNumber(file[at..at + f.CountWidth()], |es|);
  }

  ghost predicate HasDirectory(file: seq<u8>) {
    exists f, at, es :: Acceptable(f, es) && HoldsDirectory(file, f, at, es)
  }

  lemma RefusedHeader(file: seq<u8>)
    requires |file| >= HEADER_BYTES ==> ParseHeader(file[..HEADER_BYTES]).Failure?
    ensures !HasDirectory(file)
  {
    forall f, at, es | Acceptable(f, es) && HoldsDirectory(file, f, at, es) ensures false {
      WalkOf(file, f, at, es);
    }
  }

  lemma RefusedCount(file: seq<u8>, f: Format, at: u64)
    requires |file| >= HEADER_BYTES && ParseHeader(file[..HEADER_BYTES]) == Success((f, at))
    requires at + f.CountWidth() <= |file| ==>
               var count := ParseLe(file[at..at + f.CountWidth()]);
               || count == 0 || count > MAX_REMOTE_IFD_ENTRIES || EntriesLength(f, count) > MAX_REMOTE_IFD_ENTRY_BYTES
               || at + f.CountWidth() + EntriesLength(f, count) > |file|
    ensures !HasDirectory(file)
  {
    forall f', at', es | Acceptable(f', es) && HoldsDirectory(file, f', at', es) ensures false {
      WalkOf(file, f', at', es);
    }
  }

  /** A directory the file holds lies where the walk looks, and the block the walk reads is its printed entries. */
  lemma BlockOf(file: seq<u8>, f: Format, at: u64, count: nat, block: seq<u8>, f': Format, at': u64, es: seq<Entry>)
    requires |file| >= HEADER_BYTES && ParseHeader(file[..HEADER_BYTES]) == Success((f, at))
    requires at + f.CountWidth() + EntriesLength(f, count) <= |file| && ParseLe(file[at..at + f.CountWidth()]) == count
    requires block == file[at + f.CountWidth()..at + f.CountWidth() + EntriesLength(f, count)]
    requires Acceptable(f', es) && HoldsDirectory(file, f', at', es)
    ensures f == f' && PrintEntries(f, es) == block
  {
    WalkOf(file, f', at', es);
  }

  lemma RefusedEntries(file: seq<u8>, f: Format, at: u64, count: nat, block: seq<u8>)
    requires |file| >= HEADER_BYTES && ParseHeader(file[..HEADER_BYTES]) == Success((f, at))
    requires at + f.CountWidth() + EntriesLength(f, count) <= |file| && ParseLe(file[at..at + f.CountWidth()]) == count
    requires block == file[at + f.CountWidth()..at + f.CountWidth() + EntriesLength(f, count)]
    requires !exists es :: AllReadable(f, es) && PrintEntries(f, es) == block
    ensures !HasDirectory(file)
  {
    forall f', at', es | Acceptable(f', es) && HoldsDirectory(file, f', at', es) ensures false {
      BlockOf(file, f, at, count, block, f', at', es);
    }
  }

  method ReadHeader(store: Store) returns (r: Result<(Format, u64), LayoutError>)
    requires |store.content| <= U64_MAX
    modifies store
    ensures r.Success? ==> |store.content| >= HEADER_BYTES && ParseHeader(store.content[..HEADER_BYTES]) == r
    ensures r.Success? ==> store.returned == old(store.returned) + HEADER_BYTES
    ensures r.Failure? && r.error != Transport ==> !HasDirectory(store.content)
    ensures store.faults >= old(store.faults) && (r == Failure(Transport) ==> store.faults > old(store.faults))
  {
    var header := ReadExactly(store, 0, HEADER_BYTES);
    if header.Failure? {
      if header.error != Transport { RefusedHeader(store.content); }
      return Failure(header.error);
    }
    var parsed := ParseHeader(header.value);
    if parsed.Failure? {
      if parsed.error != Transport { RefusedHeader(store.content); }
    }
    return parsed;
  }

  predicate HeaderIs(file: seq<u8>, f: Format, at: u64) {
    |file| >= HEADER_BYTES && ParseHeader(file[..HEADER_BYTES]) == Success((f, at))
  }

  /** An entry count within the reader's ceilings stands at `at`. */
  predicate CountIs(file: seq<u8>, f: Format, at: u64, count: nat) {
    && at + f.CountWidth() <= |file| && ParseLe(file[at..at + f.CountWidth()]) == count
    && 0 < count <= MAX_REMOTE_IFD_ENTRIES && EntriesLength(f, count) <= MAX_REMOTE_IFD_ENTRY_BYTES
  }

  method ReadCount(store: Store, f: Format, at: u64) returns (r: Result<nat, LayoutError>)
    requires |store.content| <= U64_MAX && HeaderIs(store.content, f, at)
    modifies store
    ensures r.Success? ==> CountIs(store.content, f, at, r.value)
    ensures r.Success? ==> store.returned == old(store.returned) + f.CountWidth()
    ensures r.Failure? && r.error != Transport ==> !HasDirectory(store.content)
    ensures store.faults >= old(store.faults) && (r == Failure(Transport) ==> store.faults > old(store.faults))
  {
    var bytes := ReadExactly(store, at, f.CountWidth());
    if bytes.Failure? {
      if bytes.error != Transport { RefusedCount(store.content, f, at); }
      return Failure(bytes.error);
    }
    var count := ParseLe(bytes.value);
    if count == 0 || count > MAX_REMOTE_IFD_ENTRIES || EntriesLength(f, count) > MAX_REMOTE_IFD_ENTRY_BYTES {
      RefusedCount(store.content, f, at);
      return Failure(BadDirectory);
    }
    return Success(count);
  }

  method ReadEntries(store: Store, f: Format, at: u64, count: nat) returns (r: Result<seq<Entry>, LayoutError>)
    requires |store.content| <= U64_MAX && HeaderIs(store.content, f, at) && CountIs(store.content, f, at, count)
    modifies store
    ensures r.Success? ==> AllReadable(f, r.value) && |r.value| == count
    ensures r.Success? ==> at + f.CountWidth() + EntriesLength(f, count) <= |store.content|
                           && store.content[at + f.CountWidth()..at + f.CountWidth() + EntriesLength(f, count)] ==
                               PrintEntries(f, r.value)
    ensures r.Success? ==> store.returned == old(store.returned) + EntriesLength(f, count)
    ensures r.Failure? && r.error != Transport ==> !HasDirectory(store.content)
    ensures store.faults >= old(store.faults) && (r == Failure(Transport) ==> store.faults > old(store.faults))
  {
    var block := ReadExactly(store, at + f.CountWidth(), EntriesLength(f, count));
    if block.Failure? {
      if block.error != Transport { RefusedCount(store.content, f, at); }
      return Failure(block.error);
    }
    var entries := ParseEntries(f, block.value, count);
    if entries.None? {
      RefusedEntries(store.content, f, at, count, block.value);
      return Failure(BadDirectory);
    }
    return Success(entries.value);
  }

  /** The parts read are a directory that the file holds. */
  lemma WalkedDirectory(file: seq<u8>, f: Format, at: u64, es: seq<Entry>)
    requires HeaderIs(file, f, at) && CountIs(file, f, at, |es|) && AllReadable(f, es)
    requires at + f.CountWidth() + EntriesLength(f, |es|) <= |file|
    requires file[at + f.CountWidth()..at + f.CountWidth() + EntriesLength(f, |es|)] == PrintEntries(f, es)
    ensures Acceptable(f, es) && HoldsDirectory(file, f, at, es)
  {
    HeaderRoundTrip(file, f, at);
    SpelledNumber(file[at..at + f.CountWidth()], |es|);
  }

  /**
    Walk header, count and entries.  Unless the store fails, the result is the one acceptable
    directory that the file holds, and it is an error exactly when there is none.
   */
  method ReadDirectory(store: Store) returns (r: Result<Directory, LayoutError>)
    requires |store.content| <= U64_MAX
    modifies store
    ensures r.Success? ==>
              && Acceptable(r.value.format, r.value.entries)
              && HoldsDirectory(store.content, r.value.format, r.value.offset, r.value.entries)
              && r.value.bytesRead ==
                  store.returned - old(store.returned) <= HEADER_BYTES + 8 + MAX_REMOTE_IFD_ENTRY_BYTES
    ensures r.Failure? && r.error != Transport ==> !HasDirectory(store.content)
    ensures store.faults >= old(store.faults) && (r == Failure(Transport) ==> store.faults > old(store.faults))
  {
    var header :- ReadHeader(store);
    var format, offset := header.0, header.1;
    var count :- ReadCount(store, format, offset);
    var entries :- ReadEntries(store, format, offset, count);
    WalkedDirectory(store.content, format, offset, entries);
    return Success(Directory(format, offset, entries,
        HEADER_BYTES + format.CountWidth() + EntriesLength(format, count)));
  }

  /** A file holds at most one acceptable directory. */
  lemma DirectoryUnique(file: seq<u8>, f: Format, at: u64, es: seq<Entry>, f': Format, at': u64, es': seq<Entry>)
    requires Acceptable(f, es) && HoldsDirectory(file, f, at, es)
    requires Acceptable(f', es') && HoldsDirectory(file, f', at', es')
    ensures f == f' && at == at' && es == es'
  {
    HeaderRoundTrip(file, f, at);
    HeaderRoundTrip(file, f', at');
    var count := file[at..at + f.CountWidth()];
    SpelledNumber(count, |es|);
    SpelledNumber(count, |es'|);
    PrintEntriesInjective(f, es, es');
  }
}
