/**
  The shared range cache in front of a Parquet reader.  Between any two steps of a reader the
  other readers may look up, count and insert, and the cache may evict whatever it likes.

  What is done to the cache is a run of turns.  A reader's methods take turns of its own, of the
  same kind as those of the others, so the claims about runs hold of any number of readers.
 */
module ParquetCache {
  import opened Prelude

  type Bytes = seq<u8>

  /** Identity of one immutable remote artifact; it includes the size and the version tag. */
  type Ident = string

  datatype ChunkKey = ChunkKey(ident: Ident, offset: u64, length: u64)

  /** What a read of `length` bytes at `offset` delivers; reads stop at the end of the file. */
  function Content(file: Bytes, offset: nat, length: nat): Bytes {
    if offset >= |file| then [] else file[offset..Min(offset + length, |file|)]
  }

  function RangeContent(file: Bytes, r: Range): Bytes
    requires r.start <= r.end
  {
    Content(file, r.start, r.end - r.start)
  }

  predicate Proper(ranges: seq<Range>) {
    forall k :: 0 <= k < |ranges| ==> ranges[k].start <= ranges[k].end
  }

  function Contents(file: Bytes, ranges: seq<Range>): seq<Bytes>
    requires Proper(ranges)
  {
    seq(|ranges|, k requires 0 <= k < |ranges| => RangeContent(file, ranges[k]))
  }

  // ---- Runs ---------------------------------------------------------------------------

  /** What a reader, or the eviction policy, does to the cache in one indivisible step. */
  datatype Action =
    | Evict(key: ChunkKey) | Look(key: ChunkKey, found: bool) | Put(key: ChunkKey) | CountHit | CountMiss

  /** An action of one of the readers that share the cache; evictions are nobody's in particular. */
  datatype Turn = Turn(reader: nat, action: Action)

  datatype Shared = Shared(entries: map<ChunkKey, Bytes>, hits: nat, misses: nat)

  const EMPTY: Shared := Shared(map[], 0, 0)

  function Act(files: Ident -> Bytes, s: Shared, a: Action): Shared {
    match a
    case Evict(key) => s.(entries := s.entries - {key})
    case Put(key) => s.(entries := s.entries[key := Content(files(key.ident), key.offset, key.length)])
    case Look(_, _) => s
    case CountHit => s.(hits := s.hits + 1)
    case CountMiss => s.(misses := s.misses + 1)
  }

  /** The turns taken so far, in order. */
  datatype Run = Start | Next(earlier: Run, turn: Turn)

  /** The cache after any interleaving of the turns of its readers. */
  function Play(files: Ident -> Bytes, run: Run): Shared {
    match run
    case Start => EMPTY
    case Next(earlier, turn) => Act(files, Play(files, earlier), turn.action)
  }

  /** Every lookup of a run found its key exactly when the cache held it at that moment. */
  ghost predicate Honest(files: Ident -> Bytes, run: Run) {
    match run
    case Start => true
    case Next(earlier, turn) =>
      && Honest(files, earlier)
      && (turn.action.Look? ==> (turn.action.found <==> turn.action.key in Play(files, earlier).entries))
  }

  /** Every entry holds the bytes of its artifact at its key. */
  ghost predicate Right(files: Ident -> Bytes, entries: map<ChunkKey, Bytes>) {
    forall key :: key in entries ==> entries[key] == Content(files(key.ident), key.offset, key.length)
  }

  /** In every run, whoever takes the turns, every entry is right. */
  lemma {:induction false} EntriesAreRight(files: Ident -> Bytes, run: Run)
    ensures Right(files, Play(files, run).entries)
  {
    if run.Next? {
      EntriesAreRight(files, run.earlier);
    }
  }

  /** The turns that one reader took. */
  function TurnsOf(run: Run, reader: nat): Run {
    match run
    case Start => Start
    case Next(earlier, turn) =>
      var own := TurnsOf(earlier, reader);
      if turn.reader == reader then Next(own, turn) else own
  }

  /** Whether the second run goes on from the first. */
  predicate Extends(before: Run, after: Run) {
    before == after || (after.Next? && Extends(before, after.earlier))
  }

  /** Each lookup anywhere in an honest run found its key exactly when the cache held it there. */
  lemma {:induction false} LookupFound(files: Ident -> Bytes, run: Run, earlier: Run, t: Turn)
    requires Honest(files, run) && Extends(Next(earlier, t), run) && t.action.Look?
    ensures t.action.found <==> t.action.key in Play(files, earlier).entries
  {
    if run != Next(earlier, t) {
      LookupFound(files, run.earlier, earlier, t);
    }
  }

  /** One lookup; a hit is counted. */
  function Looked(run: Run, reader: nat, key: ChunkKey, found: bool): Run {
    var looked := Next(run, Turn(reader, Look(key, found)));
    if found then Next(looked, Turn(reader, CountHit)) else looked
  }

  /** The same turn taken `n` times. */
  function Repeat(run: Run, turn: Turn, n: nat): Run {
    if n == 0 then run else Next(Repeat(run, turn, n - 1), turn)
  }

  /** The first `n` of these keys put by one reader, in order. */
  function PutAll(run: Run, reader: nat, keys: seq<ChunkKey>, n: nat): Run
    requires n <= |keys|
  {
    if n == 0 then run else Next(PutAll(run, reader, keys, n - 1), Turn(reader, Put(keys[n - 1])))
  }

  /** How often a reader took this action. */
  function Tally(run: Run, t: Turn): nat {
    match run
    case Start => 0
    case Next(earlier, turn) => Tally(earlier, t) + if turn == t then 1 else 0
  }

  /** The same action of the readers below `n`, together. */
  function TallyAll(run: Run, a: Action, n: nat): nat {
    if n == 0 then 0 else TallyAll(run, a, n - 1) + Tally(run, Turn(n - 1, a))
  }

  lemma {:induction false} TallyAllNext(run: Run, t: Turn, a: Action, n: nat)
    ensures TallyAll(Next(run, t), a, n) == TallyAll(run, a, n) + if t.action == a && t.reader < n then 1 else 0
  {
    if n > 0 {
      TallyAllNext(run, t, a, n - 1);
    }
  }

  predicate ReadersBelow(run: Run, n: nat) {
    run.Next? ==> run.turn.reader < n && ReadersBelow(run.earlier, n)
  }

  /** In every run of readers below `n`, the counters are the sums of what the readers counted. */
  lemma {:induction false} CountersAddUp(files: Ident -> Bytes, run: Run, n: nat)
    requires ReadersBelow(run, n)
    ensures Play(files, run).hits == TallyAll(run, CountHit, n)
    ensures Play(files, run).misses == TallyAll(run, CountMiss, n)
  {
    if run.Start? {
      TallyAllEmpty(CountHit, n);
      TallyAllEmpty(CountMiss, n);
    } else {
      CountersAddUp(files, run.earlier, n);
      TallyAllNext(run.earlier, run.turn, CountHit, n);
      TallyAllNext(run.earlier, run.turn, CountMiss, n);
    }
  }

  lemma {:induction false} TallyAllEmpty(a: Action, n: nat)
    ensures TallyAll(Start, a, n) == 0
  {
    if n > 0 {
      TallyAllEmpty(a, n - 1);
    }
  }

  function Sum(counts: seq<nat>): nat {
    if counts == [] then 0 else Sum(counts[..|counts| - 1]) + counts[|counts| - 1]
  }

  /**
    When every reader has counted one hit or one miss for each range it requested, the counters
    of the cache together are the number of all ranges requested, in every run.
   */
  lemma EveryRangeIsCountedOnce(files: Ident -> Bytes, run: Run, requested: seq<nat>)
    requires ReadersBelow(run, |requested|)
    requires forall r :: 0 <= r < |requested| ==>
               Tally(run, Turn(r, CountHit)) + Tally(run, Turn(r, CountMiss)) == requested[r]
    ensures Play(files, run).hits + Play(files, run).misses == Sum(requested)
  {
    CountersAddUp(files, run, |requested|);
    SumOfTallies(run, requested, |requested|);
    assert requested[..|requested|] == requested;
  }

  lemma {:induction false} SumOfTallies(run: Run, requested: seq<nat>, n: nat)
    requires n <= |requested|
    requires forall r :: 0 <= r < |requested| ==>
               Tally(run, Turn(r, CountHit)) + Tally(run, Turn(r, CountMiss)) == requested[r]
    ensures TallyAll(run, CountHit, n) + TallyAll(run, CountMiss, n) == Sum(requested[..n])
  {
    if n > 0 {
      SumOfTallies(run, requested, n - 1);
      assert requested[..n][..n - 1] == requested[..n - 1];
    }
  }

  /** A reader counts the same in all turns and in its own. */
  lemma {:induction false} OwnTally(run: Run, reader: nat, a: Action)
    ensures Tally(run, Turn(reader, a)) == Tally(TurnsOf(run, reader), Turn(reader, a))
  {
    if run.Next? {
      OwnTally(run.earlier, reader, a);
    }
  }

  lemma {:induction false} TallyOfRepeat(run: Run, turn: Turn, n: nat, t: Turn)
    ensures Tally(Repeat(run, turn, n), t) == Tally(run, t) + if turn == t then n else 0
  {
    if n > 0 {
      TallyOfRepeat(run, turn, n - 1, t);
    }
  }

  lemma {:induction false} TallyOfPuts(run: Run, reader: nat, keys: seq<ChunkKey>, n: nat, t: Turn)
    requires n <= |keys| && !t.action.Put?
    ensures Tally(PutAll(run, reader, keys, n), t) == Tally(run, t)
  {
    if n > 0 {
      TallyOfPuts(run, reader, keys, n - 1, t);
    }
  }

  /** Counting `n` misses adds that many to the counter of the cache and to the turns of this reader. */
  lemma {:induction false} MissesAreCounted(files: Ident -> Bytes, run: Run, reader: nat, n: nat)
    ensures var after := Repeat(run, Turn(reader, CountMiss), n);
            && Play(files, after) == Play(files, run).(misses := Play(files, run).misses + n)
            && (Honest(files, run) ==> Honest(files, after))
            && TurnsOf(after, reader) == Repeat(TurnsOf(run, reader), Turn(reader, CountMiss), n)
  {
    if n > 0 {
      MissesAreCounted(files, run, reader, n - 1);
    }
  }

  // ---- The cache ----------------------------------------------------------------------

  class ParquetRowGroupCache {
    const files: Ident -> Bytes
    var entries: map<ChunkKey, Bytes>
    var hits: nat
    var misses: nat
    /** The turns taken so far, by all readers. */
    ghost var log: Run

    constructor (artifacts: Ident -> Bytes)
      ensures Valid() && files == artifacts && log == Start
    {
      files := artifacts;
      entries := map[];
      hits, misses, log := 0, 0, Start;
    }

    /** The cache is what the turns taken so far make of an empty one, and their lookups are honest. */
    ghost predicate Valid()
      reads this
    {
      Shared(entries, hits, misses) == Play(files, log) && Honest(files, log)
    }

    /** Hits and misses counted by one reader. */
    ghost function HitsOf(reader: nat): nat
      reads this
    {
      Tally(log, Turn(reader, CountHit))
    }

    ghost function MissesOf(reader: nat): nat
      reads this
    {
      Tally(log, Turn(reader, CountMiss))
    }

    ghost function Own(reader: nat): Run
      reads this
    {
      TurnsOf(log, reader)
    }

    method Get(key: ChunkKey, ghost me: nat) returns (r: Option<Bytes>)
      requires Valid()
      modifies this`hits, this`log
      ensures Valid() && log == Looked(old(log), me, key, r.Some?)
      ensures r == if key in entries then Some(entries[key]) else None
      ensures r.Some? ==> r.value == Content(files(key.ident), key.offset, key.length)
      ensures Own(me) == Looked(old(Own(me)), me, key, r.Some?)
    {
      EntriesAreRight(files, log);
      r := if key in entries then Some(entries[key]) else None;
      log := Next(log, Turn(me, Look(key, r.Some?)));
      assert Own(me) == Next(old(Own(me)), Turn(me, Look(key, r.Some?)));
      if r.Some? {
        hits := hits + 1;
        log := Next(log, Turn(me, CountHit));
      }
    }

    method Insert(key: ChunkKey, bytes: Bytes, ghost me: nat)
      requires Valid() && bytes == Content(files(key.ident), key.offset, key.length)
      modifies this`entries, this`log
      ensures Valid() && log == Next(old(log), Turn(me, Put(key))) && entries == old(entries)[key := bytes]
      ensures Own(me) == Next(old(Own(me)), Turn(me, Put(key)))
    {
      entries := entries[key := bytes];
      log := Next(log, Turn(me, Put(key)));
    }

    method CountMisses(n: nat, ghost me: nat)
      requires Valid()
      modifies this`misses, this`log
      ensures Valid() && log == Repeat(old(log), Turn(me, CountMiss), n)
      ensures Own(me) == Repeat(old(Own(me)), Turn(me, CountMiss), n)
    {
      misses := misses + n;
      MissesAreCounted(files, log, me, n);
      log := Repeat(log, Turn(me, CountMiss), n);
    }

    /** What the others do between two steps of a reader: any number of turns that are not its own. */
    method Others(ghost me: nat)
      requires Valid()
      modifies this
      ensures Valid() && Extends(old(log), log) && Own(me) == old(Own(me))
    {
      var actions: seq<Action> := *;
      for i := 0 to |actions|
        invariant Valid() && Extends(old(log), log) && Own(me) == old(Own(me))
      {
        ghost var any: int := *;
        ghost var reader: nat := if any < 0 || any == me then me + 1 else any;
        match actions[i] {
          case Evict(key) => entries := entries - {key};
          case Put(key) => entries := entries[key := Content(files(key.ident), key.offset, key.length)];
          case Look(_, _) =>
          case CountHit => hits := hits + 1;
          case CountMiss => misses := misses + 1;
        }
        ghost var action := if actions[i].Look? then actions[i].(found := actions[i].key in entries) else actions[i];
        log := Next(log, Turn(reader, action));
      }
    }
  }

  // ---- The reader ---------------------------------------------------------------------

  datatype ReadError = Inner | WrongCount(got: nat, asked: nat) | OmittedRange | FewerRanges

  /** The wrapped reader: it may fail, and it may answer a list with too few or too many entries. */
  class InnerReader {
    const file: Bytes
    /** Ranges requested so far. */
    ghost var asked: nat
    /** Requests that failed, or were answered with another number of ranges. */
    ghost var faults: nat

    constructor (content: Bytes)
      ensures file == content && asked == 0 && faults == 0
    {
      file := content;
      asked, faults := 0, 0;
    }

    method GetBytes(range: Range) returns (r: Result<Bytes, ReadError>)
      requires range.start <= range.end
      modifies this
      ensures asked == old(asked) + 1
      ensures r.Success? ==> r.value == RangeContent(file, range)
      ensures r.Failure? ==> r.error == Inner && faults > old(faults)
    {
      asked := asked + 1;
      if * {
        faults := faults + 1;
        return Failure(Inner);
      }
      return Success(RangeContent(file, range));
    }

    method GetByteRanges(ranges: seq<Range>) returns (r: Result<seq<Bytes>, ReadError>)
      requires Proper(ranges)
      modifies this
      ensures asked == old(asked) + |ranges|
      ensures r.Success? && |r.value| == |ranges| ==> r.value == Contents(file, ranges)
      ensures r.Success? && |r.value| != |ranges| ==> faults > old(faults)
      ensures r.Failure? ==> r.error == Inner && faults > old(faults)
    {
      asked := asked + |ranges|;
      if * {
        faults := faults + 1;
        return Failure(Inner);
      }
      var extra: seq<Bytes> := *;
      var kept: int := *;
      var all := Contents(file, ranges);
      if 0 <= kept < |all| {
        faults := faults + 1;
        return Success(all[..kept]);
      }
      if extra != [] {
        faults := faults + 1;
      }
      return Success(all + extra);
    }
  }

  /** A requested range that the cache did not hold: its position, key and range. */
  datatype Missing = Missing(indexes: seq<nat>, keys: seq<ChunkKey>, ranges: seq<Range>)

  function KeyOf(ident: Ident, r: Range): ChunkKey
    requires r.start <= r.end
  {
    ChunkKey(ident, r.start, r.end - r.start)
  }

  /** Distinct positions below `n`, in order. */
  ghost predicate Ascending(indexes: seq<nat>, n: nat) {
    && (forall j :: 0 <= j < |indexes| ==> indexes[j] < n)
    && (forall j, k :: 0 <= j < k < |indexes| ==> indexes[j] < indexes[k])
  }

  /** Such positions are none, or all below `n - 1`, or end with `n - 1`. */
  lemma AscendingSplit(indexes: seq<nat>, n: nat)
    requires Ascending(indexes, n)
    ensures n == 0 ==> indexes == []
    ensures n > 0 && n - 1 !in indexes ==> Ascending(indexes, n - 1)
    ensures n > 0 && n - 1 in indexes ==>
              var last := |indexes| - 1;
              last >= 0 && indexes == indexes[..last] + [n - 1] && Ascending(indexes[..last], n - 1)
  {
    if indexes != [] {
      assert indexes[0] < n;
      if n - 1 in indexes {
        var j :| 0 <= j < |indexes| && indexes[j] == n - 1;
        LastPosition(indexes, n, j);
      }
    }
  }

  lemma LastPosition(indexes: seq<nat>, n: nat, j: nat)
    requires Ascending(indexes, n) && j < |indexes| && indexes[j] == n - 1
    ensures j == |indexes| - 1 && indexes == indexes[..j] + [n - 1]
    ensures Ascending(indexes[..j], n - 1)
  {
    assert indexes[|indexes| - 1] < n;
  }

  /** The missing lists describe, in step, distinct positions below `n`. */
  ghost predicate Listed(ident: Ident, ranges: seq<Range>, n: nat, m: Missing)
    requires Proper(ranges)
  {
    && |m.indexes| == |m.keys| == |m.ranges|
    && n <= |ranges| && Ascending(m.indexes, n)
    && (forall j :: 0 <= j < |m.indexes| ==>
        m.ranges[j] == ranges[m.indexes[j]] && m.keys[j] == KeyOf(ident, m.ranges[j]))
  }

  /** Positions below `n` are served rightly or listed as missing from entry `from` on. */
  ghost predicate Served(file: Bytes, ranges: seq<Range>, ordered: seq<Option<Bytes>>, n: nat, m: Missing, from: nat)
    requires Proper(ranges)
  {
    && n <= |ordered| == |ranges| && from <= |m.indexes|
    && forall k :: 0 <= k < n ==>
         if ordered[k].Some? then ordered[k].value == RangeContent(file, ranges[k]) else k in m.indexes[from..]
  }

  lemma ServedNext(file: Bytes, ranges: seq<Range>, ordered: seq<Option<Bytes>>, index: nat, m: Missing,
                   cached: Option<Bytes>)
    requires Proper(ranges) && Served(file, ranges, ordered, index, m, 0) && index < |ranges|
    requires cached == Some(RangeContent(file, ranges[index]))
    ensures Served(file, ranges, ordered[index := cached], index + 1, m, 0)
  {
  }

  lemma ListedNext(file: Bytes, ident: Ident, ranges: seq<Range>, ordered: seq<Option<Bytes>>, index: nat, m: Missing)
    requires Proper(ranges) && index < |ranges| && Listed(ident, ranges, index, m)
    requires Served(file, ranges, ordered, index, m, 0) && ordered[index] == None
    ensures var m' := Missing(m.indexes + [index], m.keys + [KeyOf(ident, ranges[index])], m.ranges + [ranges[index]]);
            Listed(ident, ranges, index + 1, m') && Served(file, ranges, ordered, index + 1, m', 0)
  {
    var indexes := m.indexes + [index];
    forall k | 0 <= k < index + 1 && ordered[k] == None ensures k in indexes {
      if k < index {
        assert k in m.indexes[0..];
      } else {
        assert indexes[|m.indexes|] == k;
      }
    }
    assert indexes[0..] == indexes;
  }

  lemma FilledNext(file: Bytes, ranges: seq<Range>, ordered: seq<Option<Bytes>>, m: Missing, j: nat)
    requires Proper(ranges) && j < |m.indexes| == |m.ranges| && Served(file, ranges, ordered, |ranges|, m, j)
    requires m.indexes[j] < |ranges| && m.ranges[j] == ranges[m.indexes[j]]
    ensures Served(file, ranges, ordered[m.indexes[j] := Some(RangeContent(file, m.ranges[j]))], |ranges|, m, j + 1)
  {
    assert m.indexes[j..] == [m.indexes[j]] + m.indexes[j + 1..];
  }

  class CachingReader {
    const inner: InnerReader
    const cache: ParquetRowGroupCache?
    const ident: Ident
    /** The number of the reader among those that share the cache. */
    ghost const me: nat

    constructor (reader: InnerReader, shared: ParquetRowGroupCache?, id: Ident, ghost number: nat)
      requires shared != null ==> shared.files(id) == reader.file
      ensures Valid() && inner == reader && cache == shared && me == number
    {
      inner, cache, ident, me := reader, shared, id, number;
    }

    /** The identity names the file that the inner reader reads. */
    ghost predicate Valid() {
      cache != null ==> cache.files(ident) == inner.file
    }

    /**
      Since the given counts, every range passed on to the inner reader was counted as a miss and
      every other one as a hit.
     */
    ghost predicate Counted(hits: int, misses: int, asked: nat, requested: nat)
      requires cache != null
      reads cache, inner
    {
      && cache.MissesOf(me) - misses == inner.asked - asked
      && cache.HitsOf(me) - hits + cache.MissesOf(me) - misses == requested
    }

    lemma OwnTallies()
      requires cache != null
      ensures cache.HitsOf(me) == Tally(cache.Own(me), Turn(me, CountHit))
      ensures cache.MissesOf(me) == Tally(cache.Own(me), Turn(me, CountMiss))
    {
      OwnTally(cache.log, me, CountHit);
      OwnTally(cache.log, me, CountMiss);
    }

    /** The turns of the reader after a miss, and after storing the answer if there is one. */
    ghost function Missed(own: Run, range: Range, answered: bool): Run
      requires range.start <= range.end
    {
      var counted := Next(own, Turn(me, CountMiss));
      if answered then Next(counted, Turn(me, Put(KeyOf(ident, range)))) else counted
    }

    ghost predicate HitTaken(before: Run, after: Run, range: Range)
      requires range.start <= range.end
    {
      after == Looked(before, me, KeyOf(ident, range), true)
    }

    ghost predicate MissTaken(before: Run, after: Run, range: Range, answered: bool)
      requires range.start <= range.end
    {
      after == Missed(Looked(before, me, KeyOf(ident, range), false), range, answered)
    }

    /**
      `get_bytes`: the bytes of the file.  When the cache holds the range at the moment the reader
      looks, it is returned, counted as a hit, and the inner reader is not asked.  Otherwise a miss
      is counted, the inner reader is asked, and what it delivers is put into the cache.
     */
    method GetBytes(range: Range) returns (r: Result<Bytes, ReadError>)
      requires Valid() && range.start <= range.end && (cache != null ==> cache.Valid())
      modifies cache, inner
      ensures cache != null ==>
                cache.Valid() && Counted(old(cache.HitsOf(me)), old(cache.MissesOf(me)), old(inner.asked), 1)
      ensures r.Success? ==> r.value == RangeContent(inner.file, range)
      ensures r.Failure? ==> r.error == Inner && inner.faults > old(inner.faults)
      ensures cache == null ==> inner.asked == old(inner.asked) + 1
      ensures cache != null ==>
                || (HitTaken(old(cache.Own(me)), cache.Own(me), range) && inner.asked == old(inner.asked) && r.Success?)
                || (MissTaken(old(cache.Own(me)), cache.Own(me), range, r.Success?) &&
                    inner.asked == old(inner.asked) + 1)
    {
      if cache == null {
        r := inner.GetBytes(range);
        return;
      }
      OwnTallies();
      var cached := LookUpOne(range);
      OwnTallies();
      if cached.Some? {
        return Success(cached.value);
      }
      r := FetchOne(range);
      OwnTallies();
    }

    /** After a miss: count it, ask the inner reader and store the answer. */
    method FetchOne(range: Range) returns (r: Result<Bytes, ReadError>)
      requires Valid() && range.start <= range.end && cache != null && cache.Valid()
      modifies cache, inner
      ensures cache.Valid() && inner.asked == old(inner.asked) + 1
      ensures r.Success? ==> r.value == RangeContent(inner.file, range)
      ensures r.Failure? ==> r.error == Inner && inner.faults > old(inner.faults)
      ensures cache.Own(me) == Missed(old(cache.Own(me)), range, r.Success?)
    {
      cache.Others(me);
      cache.CountMisses(1, me);
      cache.Others(me);
      var bytes :- inner.GetBytes(range);
      cache.Insert(KeyOf(ident, range), bytes, me);
      cache.Others(me);
      r := Success(bytes);
    }

    /** One lookup, after whatever the others did: a hit exactly when the cache holds the range then. */
    method LookUpOne(range: Range) returns (cached: Option<Bytes>)
      requires Valid() && range.start <= range.end && cache != null && cache.Valid()
      modifies cache
      ensures cache.Valid()
      ensures cached.Some? ==> cached == Some(RangeContent(inner.file, range))
      ensures cache.Own(me) == Looked(old(cache.Own(me)), me, KeyOf(ident, range), cached.Some?)
    {
      cache.Others(me);
      cached := cache.Get(KeyOf(ident, range), me);
    }

    /** The reader counted the misses and, when the answer is complete, put every missing range. */
    ghost predicate Completed(before: Run, after: Run, m: Missing, complete: bool) {
      var counted := Repeat(before, Turn(me, CountMiss), |m.ranges|);
      after == if complete then PutAll(counted, me, m.keys, |m.keys|) else counted
    }

    /** The turns of looking up the first `n` ranges in order, found unless listed as missing. */
    ghost function LookedAll(own: Run, ranges: seq<Range>, missing: seq<nat>, n: nat): Run
      requires Proper(ranges) && n <= |ranges|
    {
      if n == 0 then own
      else Looked(LookedAll(own, ranges, missing, n - 1), me, KeyOf(ident, ranges[n - 1]), n - 1 !in missing)
    }

    lemma {:induction false} LookedAllNext(own: Run, ranges: seq<Range>, missing: seq<nat>, n: nat, index: nat)
      requires Proper(ranges) && n <= index < |ranges|
      ensures LookedAll(own, ranges, missing + [index], n) == LookedAll(own, ranges, missing, n)
    {
      if n > 0 {
        LookedAllNext(own, ranges, missing, n - 1, index);
        assert n - 1 in missing + [index] <==> n - 1 in missing;
      }
    }

    lemma LookedOne(own: Run, ranges: seq<Range>, m: Missing, index: nat)
      requires Proper(ranges) && index < |ranges| && Listed(ident, ranges, index, m)
      ensures var before, key := LookedAll(own, ranges, m.indexes, index), KeyOf(ident, ranges[index]);
              && LookedAll(own, ranges, m.indexes, index + 1) == Looked(before, me, key, true)
              && LookedAll(own, ranges, m.indexes + [index], index + 1) == Looked(before, me, key, false)
    {
      LookedAllNext(own, ranges, m.indexes, index, index);
      assert (m.indexes + [index])[|m.indexes|] == index;
    }

    lemma LookedIsCounted(own: Run, key: ChunkKey, found: bool)
      ensures Tally(Looked(own, me, key, found), Turn(me, CountHit)) ==
              Tally(own, Turn(me, CountHit)) + if found then 1 else 0
      ensures Tally(Looked(own, me, key, found), Turn(me, CountMiss)) == Tally(own, Turn(me, CountMiss))
    {
      var looked := Next(own, Turn(me, Look(key, found)));
      assert Tally(looked, Turn(me, CountHit)) == Tally(own, Turn(me, CountHit));
    }

    /** Each lookup that is not listed as missing was counted as a hit. */
    lemma {:induction false} HitsOfLookedAll(own: Run, ranges: seq<Range>, missing: seq<nat>, n: nat)
      requires Proper(ranges) && n <= |ranges| && Ascending(missing, n)
      decreases n
      ensures var after := LookedAll(own, ranges, missing, n);
              && Tally(after, Turn(me, CountHit)) + |missing| == Tally(own, Turn(me, CountHit)) + n
              && Tally(after, Turn(me, CountMiss)) == Tally(own, Turn(me, CountMiss))
    {
      AscendingSplit(missing, n);
      if n > 0 {
        LookedIsCounted(LookedAll(own, ranges, missing, n - 1), KeyOf(ident, ranges[n - 1]), n - 1 !in missing);
        if n - 1 in missing {
          var front := missing[..|missing| - 1];
          HitsOfLookedAll(own, ranges, front, n - 1);
          LookedAllNext(own, ranges, front, n - 1, n - 1);
        } else {
          HitsOfLookedAll(own, ranges, missing, n - 1);
        }
      }
    }

    /** The turns of `get_byte_ranges` count every range once, as a hit or as a miss. */
    lemma CompletedIsCounted(own: Run, after: Run, ranges: seq<Range>, m: Missing, complete: bool)
      requires Proper(ranges) && Listed(ident, ranges, |ranges|, m)
      requires Completed(LookedAll(own, ranges, m.indexes, |ranges|), after, m, complete)
      ensures Tally(after, Turn(me, CountHit)) + |m.ranges| == Tally(own, Turn(me, CountHit)) + |ranges|
      ensures Tally(after, Turn(me, CountMiss)) == Tally(own, Turn(me, CountMiss)) + |m.ranges|
    {
      var looked := LookedAll(own, ranges, m.indexes, |ranges|);
      var counted := Repeat(looked, Turn(me, CountMiss), |m.ranges|);
      HitsOfLookedAll(own, ranges, m.indexes, |ranges|);
      TallyOfRepeat(looked, Turn(me, CountMiss), |m.ranges|, Turn(me, CountHit));
      TallyOfRepeat(looked, Turn(me, CountMiss), |m.ranges|, Turn(me, CountMiss));
      TallyOfPuts(counted, me, m.keys, |m.keys|, Turn(me, CountHit));
      TallyOfPuts(counted, me, m.keys, |m.keys|, Turn(me, CountMiss));
    }

    /** Look every range up; collect what is missing. */
    method LookUp(ranges: seq<Range>, ordered: array<Option<Bytes>>)
      returns (m: Missing)
      requires Valid() && Proper(ranges) && cache != null && cache.Valid()
      requires ordered.Length == |ranges| && forall k :: 0 <= k < |ranges| ==> ordered[k] == None
      modifies cache, ordered
      ensures cache.Valid()
      ensures Listed(ident, ranges, |ranges|, m) && Served(inner.file, ranges, ordered[..], |ranges|, m, 0)
      ensures cache.Own(me) == LookedAll(old(cache.Own(me)), ranges, m.indexes, |ranges|)
    {
      m := Missing([], [], []);
      for index := 0 to |ranges|
        invariant cache.Valid()
        invariant Listed(ident, ranges, index, m) && Served(inner.file, ranges, ordered[..], index, m, 0)
        invariant forall k :: index <= k < |ranges| ==> ordered[k] == None
        invariant cache.Own(me) == LookedAll(old(cache.Own(me)), ranges, m.indexes, index)
      {
        LookedOne(old(cache.Own(me)), ranges, m, index);
        m := LookUpNext(ranges, ordered, m, index);
      }
    }

    /** The lookup of the range at one position. */
    method LookUpNext(ranges: seq<Range>, ordered: array<Option<Bytes>>, m: Missing, index: nat) returns (m': Missing)
      requires Valid() && Proper(ranges) && cache != null && cache.Valid()
      requires ordered.Length == |ranges| && index < |ranges| && ordered[index] == None
      requires Listed(ident, ranges, index, m) && Served(inner.file, ranges, ordered[..], index, m, 0)
      modifies cache, ordered
      ensures cache.Valid() && forall k :: index < k < |ranges| ==> ordered[k] == old(ordered[k])
      ensures Listed(ident, ranges, index + 1, m') && Served(inner.file, ranges, ordered[..], index + 1, m', 0)
      ensures var found := m'.indexes == m.indexes;
              && (found || m'.indexes == m.indexes + [index])
              && cache.Own(me) == Looked(old(cache.Own(me)), me, KeyOf(ident, ranges[index]), found)
    {
      var range := ranges[index];
      var cached := LookUpOne(range);
      if cached.Some? {
        m' := m;
        ServedNext(inner.file, ranges, ordered[..], index, m, cached);
        ordered[index] := cached;
      } else {
        ListedNext(inner.file, ident, ranges, ordered[..], index, m);
        m' := Missing(m.indexes + [index], m.keys + [KeyOf(ident, range)], m.ranges + [range]);
        assert |m'.indexes| != |m.indexes|;
      }
    }

    /** Store what was fetched, in the cache and in the answer. */
    method Fill(ranges: seq<Range>, ordered: array<Option<Bytes>>, m: Missing, fetched: seq<Bytes>)
      requires Valid() && Proper(ranges) && cache != null && cache.Valid()
      requires Listed(ident, ranges, |ranges|, m) && Served(inner.file, ranges, ordered[..], |ranges|, m, 0)
      requires Proper(m.ranges) && fetched == Contents(inner.file, m.ranges)
      modifies cache, ordered
      ensures cache.Valid()
      ensures Served(inner.file, ranges, ordered[..], |ranges|, m, |m.indexes|)
      ensures cache.Own(me) == PutAll(old(cache.Own(me)), me, m.keys, |m.keys|)
    {
      for j := 0 to |fetched|
        invariant cache.Valid()
        invariant Served(inner.file, ranges, ordered[..], |ranges|, m, j)
        invariant cache.Own(me) == PutAll(old(cache.Own(me)), me, m.keys, j)
      {
        FillNext(ranges, ordered, m, fetched[j], j);
      }
    }

    /** Store the answer to one missing range. */
    method FillNext(ranges: seq<Range>, ordered: array<Option<Bytes>>, m: Missing, bytes: Bytes, j: nat)
      requires Valid() && Proper(ranges) && cache != null && cache.Valid()
      requires Listed(ident, ranges, |ranges|, m) && Served(inner.file, ranges, ordered[..], |ranges|, m, j)
      requires j < |m.indexes| && bytes == RangeContent(inner.file, ranges[m.indexes[j]])
      modifies cache, ordered
      ensures cache.Valid() && Served(inner.file, ranges, ordered[..], |ranges|, m, j + 1)
      ensures cache.Own(me) == Next(old(cache.Own(me)), Turn(me, Put(m.keys[j])))
    {
      cache.Others(me);
      cache.Insert(m.keys[j], bytes, me);
      FilledNext(inner.file, ranges, ordered[..], m, j);
      ordered[m.indexes[j]] := Some(bytes);
    }

    /** All answers in request order; fails on a range left without one. */
    method Collect(ordered: array<Option<Bytes>>, missing: ReadError) returns (r: Result<seq<Bytes>, ReadError>)
      ensures (forall k :: 0 <= k < ordered.Length ==> ordered[k].Some?) ==> r.Success?
      ensures r.Success? ==> |r.value| == ordered.Length && forall k :: 0 <= k < ordered.Length ==>
                ordered[k] == Some(r.value[k])
      ensures r.Failure? ==> r.error == missing
    {
      var all: seq<Bytes> := [];
      for k := 0 to ordered.Length
        invariant |all| == k && forall j :: 0 <= j < k ==> ordered[j] == Some(all[j])
      {
        if ordered[k].None? {
          return Failure(missing);
        }
        all := all + [ordered[k].value];
      }
      return Success(all);
    }

    /**
      `get_byte_ranges`: the bytes of the file in request order, and one hit or miss for every
      range.  The inner reader is asked for exactly the ranges that the cache did not hold when the
      reader looked, and what it delivers is put into the cache.  Neither assembly error can occur.
     */
    method GetByteRanges(ranges: seq<Range>)
      returns (r: Result<seq<Bytes>, ReadError>, ghost m: Missing)
      requires Valid() && Proper(ranges) && (cache != null ==> cache.Valid())
      modifies cache, inner
      ensures cache != null ==>
                cache.Valid() && Counted(old(cache.HitsOf(me)), old(cache.MissesOf(me)), old(inner.asked), |ranges|)
      ensures r.Success? && (cache != null || |r.value| == |ranges|) ==> r.value == Contents(inner.file, ranges)
      ensures r.Failure? ==> inner.faults > old(inner.faults)
      ensures r.Failure? ==> r.error == Inner || (r.error.WrongCount? && r.error.got != r.error.asked)
      ensures cache == null ==> inner.asked == old(inner.asked) + |ranges|
      ensures cache != null ==>
                && Listed(ident, ranges, |ranges|, m)
                && inner.asked == old(inner.asked) + |m.ranges|
                && Completed(LookedAll(old(cache.Own(me)), ranges, m.indexes, |ranges|), cache.Own(me), m, r.Success?)
    {
      m := Missing([], [], []);
      if cache == null {
        r := inner.GetByteRanges(ranges);
        return;
      }
      OwnTallies();
      var ordered := new Option<Bytes>[|ranges|](_ => None);
      var missing := LookUp(ranges, ordered);
      m := missing;
      r := Complete(ranges, ordered, missing);
      CompletedIsCounted(old(cache.Own(me)), cache.Own(me), ranges, missing, r.Success?);
      OwnTallies();
    }

    /** Count and fetch what is missing, and answer. */
    method Complete(ranges: seq<Range>, ordered: array<Option<Bytes>>, m: Missing)
      returns (r: Result<seq<Bytes>, ReadError>)
      requires Valid() && Proper(ranges) && cache != null && cache.Valid()
      requires Listed(ident, ranges, |ranges|, m) && Served(inner.file, ranges, ordered[..], |ranges|, m, 0)
      modifies cache, inner, ordered
      ensures cache.Valid()
      ensures inner.asked == old(inner.asked) + |m.ranges|
      ensures r.Success? ==> r.value == Contents(inner.file, ranges)
      ensures r.Failure? ==> inner.faults > old(inner.faults)
      ensures r.Failure? ==> r.error == Inner || (r.error.WrongCount? && r.error.got != r.error.asked)
      ensures Completed(old(cache.Own(me)), cache.Own(me), m, r.Success?)
    {
      cache.Others(me);
      cache.CountMisses(|m.ranges|, me);
      if |m.ranges| == 0 {
        r := Collect(ordered, OmittedRange);
        return;
      }
      cache.Others(me);
      var fetched :- inner.GetByteRanges(m.ranges);
      if |fetched| != |m.ranges| {
        return Failure(WrongCount(|fetched|, |m.ranges|));
      }
      Fill(ranges, ordered, m, fetched);
      r := Collect(ordered, FewerRanges);
    }
  }
}
