/**
  Reading a large remote artifact in parallel ranges: how the object is split, and what the
  ordered chunks add up to.
 */
module RangeSplit {
  import opened Prelude
  import opened ObjectStore

  const CHUNK_TARGET: u64 := 4 * 1024 * 1024
  const MIN_CONCURRENCY: u64 := 1
  const MAX_CONCURRENCY: u64 := 16

  function RangeCount(size: u64, concurrency: u64): (n: u64)
    ensures n >= 1
  {
    DivCeilBounds(size, CHUNK_TARGET);
    Max(Min(DivCeil(size, CHUNK_TARGET), concurrency), 1)
  }

  function RangeSize(size: u64, concurrency: u64): (n: u64)
  {
    QuotientFits(size, RangeCount(size, concurrency));
    SizeFits(size, RangeCount(size, concurrency));
    DivCeil(size, RangeCount(size, concurrency))
  }

  lemma SizeFits(size: u64, n: nat)
    requires n > 0
    ensures DivCeil(size, n) <= size
  {
    QuotientFits(size, n);
    if size % n > 0 && n == 1 {
      DivModUnique(size, size, 0, 1);
    } else if size % n > 0 {
      MulMono(2, n, size / n);
    }
  }

  /** Products are unchecked: they wrap around. */
  function ArtifactRange(size: u64, concurrency: u64, index: nat): Range {
    var step := RangeSize(size, concurrency);
    Range(Wrapped(index * step), Min(Wrapped((index + 1) * step), size))
  }

  /** `remote_artifact_ranges` */
  function RemoteArtifactRanges(size: u64, concurrency: u64): (ranges: seq<Range>)
    ensures |ranges| == RangeCount(size, concurrency)
  {
    seq(RangeCount(size, concurrency), index requires 0 <= index => ArtifactRange(size, concurrency, index))
  }

  /** Non-empty ranges, each starting where the one before ends, from zero to the size. */
  ghost predicate Partition(ranges: seq<Range>, size: u64) {
    && ranges != [] && ranges[0].start == 0 && ranges[|ranges| - 1].end == size
    && (forall i :: 0 <= i < |ranges| ==> ranges[i].start < ranges[i].end)
    && (forall i :: 0 < i < |ranges| ==> ranges[i - 1].end == ranges[i].start)
  }

  /** All but the last range fit below the size: there are too few of them to outgrow a chunk. */
  lemma LastRangeIsNotEmpty(size: u64, concurrency: u64)
    requires 0 < size && MIN_CONCURRENCY <= concurrency <= CHUNK_TARGET + 1
    ensures (RangeCount(size, concurrency) - 1) * RangeSize(size, concurrency) < size
  {
    var n, step := RangeCount(size, concurrency), RangeSize(size, concurrency);
    if n > 1 {
      DivCeilBounds(size, CHUNK_TARGET);
      var chunks := DivCeil(size, CHUNK_TARGET);
      assert n <= chunks;
      MulMono(n, chunks, CHUNK_TARGET);
      assert (n - 1) * CHUNK_TARGET < size;
      MulMono(n - 1, CHUNK_TARGET, n - 1);
      assert (n - 1) * (n - 1) < size;
      DivCeilBounds(size, n);
      FewSteps(size, n, step);
    }
  }

  lemma FewSteps(size: int, n: int, step: int)
    requires n > 1 && step * n < size + n && (n - 1) * (n - 1) < size
    ensures (n - 1) * step < size
  {
    MulMono(step * n, size + n - 1, n - 1);
    assert (n - 1) * step * n == (n - 1) * (step * n);
    assert (n - 1) * (size + n - 1) == size * n - size + (n - 1) * (n - 1);
    LessByFactor((n - 1) * step, size, n);
  }

  lemma LessByFactor(a: int, b: int, n: int)
    requires a * n < b * n && n > 0
    ensures a < b
  {
    if a >= b {
      MulMono(b, a, n);
    }
  }

  /**
    The ranges are the fewest of at most a chunk target each, capped by the concurrency, and the
    shortest of equal steps that cover the object.
   */
  lemma FewestRanges(size: u64, concurrency: u64)
    requires 0 < size && 1 <= concurrency
    ensures var n, step := RangeCount(size, concurrency), RangeSize(size, concurrency);
            && n <= concurrency && (n - 1) * CHUNK_TARGET < size
            && (n == concurrency || size <= n * CHUNK_TARGET)
            && (step - 1) * n < size <= step * n
  {
    DivCeilBounds(size, CHUNK_TARGET);
    var n, chunks := RangeCount(size, concurrency), DivCeil(size, CHUNK_TARGET);
    MulMono(n - 1, chunks - 1, CHUNK_TARGET);
    DivCeilBounds(size, n);
    assert (RangeSize(size, concurrency) - 1) * n == RangeSize(size, concurrency) * n - n;
  }

  /** The end of the last range, before it is cut to the size, covers the size and may exceed 64 bits. */
  lemma StepsCoverSize(size: u64, concurrency: u64)
    ensures size <= RangeCount(size, concurrency) * RangeSize(size, concurrency) < size + RangeCount(size, concurrency)
  {
    DivCeilBounds(size, RangeCount(size, concurrency));
  }

  /** Without wrap-around a range starts at a multiple of the step and ends at the next one, cut to the size. */
  lemma RangeSteps(size: u64, concurrency: u64, index: nat)
    requires index < RangeCount(size, concurrency)
    requires RangeCount(size, concurrency) * RangeSize(size, concurrency) <= U64_MAX
    ensures ArtifactRange(size, concurrency, index).start == index * RangeSize(size, concurrency)
    ensures ArtifactRange(size, concurrency, index).end == Min((index + 1) * RangeSize(size, concurrency), size)
  {
    var n, step := RangeCount(size, concurrency), RangeSize(size, concurrency);
    MulMono(index, n, step);
    MulMono(index + 1, n, step);
    SmallWrap(index * step);
    SmallWrap((index + 1) * step);
  }

  lemma StepsInside(size: nat, n: nat, step: nat, index: nat)
    requires 0 < size <= n * step && (n - 1) * step < size && index < n
    ensures index * step < size && index * step < (index + 1) * step
    ensures if index == n - 1 then size <= (index + 1) * step else (index + 1) * step <= size
  {
    StepIsPositive(size, n, step);
    MulMono(index, n - 1, step);
    if index < n - 1 {
      MulMono(index + 1, n - 1, step);
    }
  }

  lemma RangeAt(size: u64, concurrency: u64, index: nat)
    requires 0 < size && MIN_CONCURRENCY <= concurrency <= CHUNK_TARGET + 1 && index < RangeCount(size, concurrency)
    requires RangeCount(size, concurrency) * RangeSize(size, concurrency) <= U64_MAX
    ensures ArtifactRange(size, concurrency, index).start == index * RangeSize(size, concurrency)
    ensures ArtifactRange(size, concurrency, index).end
            == if index == RangeCount(size, concurrency) - 1 then size else (index + 1) * RangeSize(size, concurrency)
    ensures ArtifactRange(size, concurrency, index).start < ArtifactRange(size, concurrency, index).end
  {
    LastRangeIsNotEmpty(size, concurrency);
    StepsCoverSize(size, concurrency);
    RangeSteps(size, concurrency, index);
    StepsInside(size, RangeCount(size, concurrency), RangeSize(size, concurrency), index);
  }

  lemma NextStartsAtEnd(size: u64, concurrency: u64, index: nat)
    requires 0 < size && MIN_CONCURRENCY <= concurrency <= CHUNK_TARGET + 1 && 0 < index < RangeCount(size, concurrency)
    requires RangeCount(size, concurrency) * RangeSize(size, concurrency) <= U64_MAX
    ensures ArtifactRange(size, concurrency, index - 1).end == ArtifactRange(size, concurrency, index).start
  {
    RangeAt(size, concurrency, index - 1);
    RangeAt(size, concurrency, index);
  }

  lemma StepIsPositive(size: int, n: int, step: int)
    requires 0 < size <= n * step && n > 0
    ensures step > 0
  {
    if step <= 0 {
      MulMono(step, 0, n);
    }
  }

  /**
    The split is a partition of the object exactly when the end of the last range, before it
    is cut to the size, fits 64 bits.
   */
  lemma SplitIsPartition(size: u64, concurrency: u64)
    requires 0 < size && MIN_CONCURRENCY <= concurrency <= CHUNK_TARGET + 1
    ensures |RemoteArtifactRanges(size, concurrency)| <= concurrency
    ensures Partition(RemoteArtifactRanges(size, concurrency), size)
            <==> RangeCount(size, concurrency) * RangeSize(size, concurrency) <= U64_MAX
  {
    var last := RangeCount(size, concurrency) - 1;
    var ranges := RemoteArtifactRanges(size, concurrency);
    if RangeCount(size, concurrency) * RangeSize(size, concurrency) <= U64_MAX {
      SmallSplit(size, concurrency);
    } else {
      WrappedEnd(size, concurrency);
      assert ranges[last] == ArtifactRange(size, concurrency, last);
    }
  }

  lemma SmallSplit(size: u64, concurrency: u64)
    requires 0 < size && MIN_CONCURRENCY <= concurrency <= CHUNK_TARGET + 1
    requires RangeCount(size, concurrency) * RangeSize(size, concurrency) <= U64_MAX
    ensures Partition(RemoteArtifactRanges(size, concurrency), size)
  {
    var ranges := RemoteArtifactRanges(size, concurrency);
    RangeAt(size, concurrency, 0);
    RangeAt(size, concurrency, RangeCount(size, concurrency) - 1);
    forall i | 0 <= i < |ranges| ensures ranges[i].start < ranges[i].end {
      RangeAt(size, concurrency, i);
    }
    forall i | 0 < i < |ranges| ensures ranges[i - 1].end == ranges[i].start {
      NextStartsAtEnd(size, concurrency, i);
    }
  }

  /** A wrapped end falls short of the start of its range. */
  lemma WrappedEnd(size: u64, concurrency: u64)
    requires 0 < size && MIN_CONCURRENCY <= concurrency <= CHUNK_TARGET + 1
    requires RangeCount(size, concurrency) * RangeSize(size, concurrency) > U64_MAX
    ensures var last := ArtifactRange(size, concurrency, RangeCount(size, concurrency) - 1);
        last.end < size && last.end < last.start
  {
    var n, step := RangeCount(size, concurrency), RangeSize(size, concurrency);
    StepsCoverSize(size, concurrency);
    LastRangeIsNotEmpty(size, concurrency);
    DivModUnique(n * step, 1, n * step - U64_MAX - 1, U64_MAX + 1);
    FewRanges(size, concurrency);
    LastStart(size, n, step);
    SmallWrap((n - 1) * step);
  }

  /** There is one range, or there are at most a quarter as many as bytes. */
  lemma FewRanges(size: u64, concurrency: u64)
    requires 0 < size
    ensures RangeCount(size, concurrency) == 1 || 4 * RangeCount(size, concurrency) <= size
  {
    DivCeilBounds(size, CHUNK_TARGET);
  }

  lemma LastStart(size: u64, n: nat, step: nat)
    requires U64_MAX < n * step < size + n && (n == 1 || 4 * n <= size)
    ensures n * step - U64_MAX - 1 < (n - 1) * step
  {
    assert n * step == (n - 1) * step + step;
  }

  /** An object for which the end wraps: the last range runs backwards. */
  lemma LargestObjectIsNotSplit()
    ensures !Partition(RemoteArtifactRanges(U64_MAX, MAX_CONCURRENCY), U64_MAX)
    ensures var last := RemoteArtifactRanges(U64_MAX, MAX_CONCURRENCY)[15]; last.end < last.start
  {
    SplitIsPartition(U64_MAX, MAX_CONCURRENCY);
    assert RangeCount(U64_MAX, MAX_CONCURRENCY) == 16;
    assert RangeSize(U64_MAX, MAX_CONCURRENCY) == 0x1000_0000_0000_0000;
    assert RemoteArtifactRanges(U64_MAX, MAX_CONCURRENCY)[15] == ArtifactRange(U64_MAX, MAX_CONCURRENCY, 15);
  }

  // ---- Reading the chunks -------------------------------------------------------------

  function Concat(chunks: seq<seq<u8>>): seq<u8> {
    if chunks == [] then [] else Concat(chunks[..|chunks| - 1]) + chunks[|chunks| - 1]
  }

  /** Each chunk is a prefix of its range. */
  ghost predicate ChunksOf(content: seq<u8>, ranges: seq<Range>, chunks: seq<seq<u8>>) {
    && |chunks| <= |ranges|
    && forall i :: 0 <= i < |chunks| ==>
         ranges[i].start <= ranges[i].end <= |content| && chunks[i] <= content[ranges[i].start..ranges[i].end]
  }

  /** The first chunks are no longer than what they stand for, and exactly that when they are as long. */
  lemma {:induction false} ChunksRebuild(content: seq<u8>, ranges: seq<Range>, chunks: seq<seq<u8>>)
    requires |content| <= U64_MAX && Partition(ranges, |content|) && ChunksOf(content, ranges, chunks)
    ensures var end := if chunks == [] then 0 else ranges[|chunks| - 1].end;
            end <= |content| && |Concat(chunks)| <= end &&
                (|Concat(chunks)| == end ==> Concat(chunks) == content[..end])
  {
    if chunks != [] {
      var last := |chunks| - 1;
      ChunksRebuild(content, ranges, chunks[..last]);
      var range := ranges[last];
      assert content[..range.end] == content[..range.start] + content[range.start..range.end];
    }
  }

  lemma PartitionInside(content: seq<u8>, ranges: seq<Range>, i: nat)
    requires |content| <= U64_MAX && Partition(ranges, |content|) && i < |ranges|
    ensures ranges[i].start < ranges[i].end <= |content|
    decreases |ranges| - i
  {
    if i + 1 < |ranges| {
      PartitionInside(content, ranges, i + 1);
      assert ranges[i + 1 - 1].end == ranges[i + 1].start;
    }
  }

  ghost predicate WholeChunks(content: seq<u8>, ranges: seq<Range>, chunks: seq<seq<u8>>) {
    && |chunks| == |ranges|
    && forall i :: 0 <= i < |chunks| ==>
         ranges[i].start <= ranges[i].end <= |content| && chunks[i] == content[ranges[i].start..ranges[i].end]
  }

  lemma {:induction false} FirstChunks(content: seq<u8>, ranges: seq<Range>, chunks: seq<seq<u8>>, n: nat)
    requires |content| <= U64_MAX && Partition(ranges, |content|) && WholeChunks(content, ranges, chunks)
    requires 0 < n <= |chunks|
    ensures ranges[n - 1].end <= |content| && Concat(chunks[..n]) == content[..ranges[n - 1].end]
  {
    var last := ranges[n - 1];
    assert chunks[..n][..n - 1] == chunks[..n - 1];
    if n > 1 {
      FirstChunks(content, ranges, chunks, n - 1);
    } else {
      assert Concat(chunks[..0]) == [];
    }
    assert content[..last.end] == content[..last.start] + content[last.start..last.end];
  }

  lemma Everything<T>(s: seq<T>, n: nat)
    requires n == |s|
    ensures s[..n] == s
  {
  }

  /** Whole chunks of a partition add up to the object. */
  lemma FullChunks(content: seq<u8>, ranges: seq<Range>, chunks: seq<seq<u8>>)
    requires |content| <= U64_MAX && Partition(ranges, |content|) && WholeChunks(content, ranges, chunks)
    ensures Concat(chunks) == content
  {
    FirstChunks(content, ranges, chunks, |chunks|);
    Everything(chunks, |chunks|);
    Everything(content, ranges[|ranges| - 1].end);
  }

  datatype ReadError = ReadError

  /** The store refuses a range that runs backwards or leaves the object. */
  method Fetch(store: Store, range: Range) returns (r: Result<seq<u8>, StoreError>)
    modifies store
    ensures r.Success? ==>
              range.start <= range.end <= |store.content| && r.value <= store.content[range.start..range.end]
    ensures store.faults >= old(store.faults)
    ensures if range.start <= range.end <= |store.content|
            then store.faults == old(store.faults) <==> r == Success(store.content[range.start..range.end])
            else store.faults == old(store.faults) && r.Failure?
  {
    if range.start > range.end || range.end > |store.content| {
      return Failure(StoreError);
    }
    r := store.GetRange(range);
  }

  /** Every successful answer is a prefix of its range. */
  ghost predicate Answers(content: seq<u8>, ranges: seq<Range>, answers: seq<Result<seq<u8>, StoreError>>) {
    && |answers| <= |ranges|
    && forall i :: 0 <= i < |answers| && answers[i].Success? ==>
         ranges[i].start <= ranges[i].end <= |content| && answers[i].value <= content[ranges[i].start..ranges[i].end]
  }

  /** Every range inside the object is answered in full. */
  ghost predicate AnswersFully(content: seq<u8>, ranges: seq<Range>, answers: seq<Result<seq<u8>, StoreError>>) {
    && |answers| <= |ranges|
    && forall i :: 0 <= i < |answers| && ranges[i].start <= ranges[i].end <= |content| ==>
         answers[i] == Success(content[ranges[i].start..ranges[i].end])
  }

  lemma OneMoreAnswer(content: seq<u8>, ranges: seq<Range>, answers: seq<Result<seq<u8>, StoreError>>,
                      answer: Result<seq<u8>, StoreError>)
    requires |answers| < |ranges|
    ensures var range := ranges[|answers|];
            AnswersFully(content, ranges, answers + [answer]) <==>
              && AnswersFully(content, ranges, answers)
              && (range.start <= range.end <= |content| ==> answer == Success(content[range.start..range.end]))
  {
    var longer := answers + [answer];
    assert longer[|answers|] == answer && forall i :: 0 <= i < |answers| ==> longer[i] == answers[i];
  }

  /** All ranges are requested, and answered in their order, before any answer is looked at. */
  method FetchAll(store: Store, ranges: seq<Range>) returns (answers: seq<Result<seq<u8>, StoreError>>)
    modifies store
    ensures |answers| == |ranges| && store.faults >= old(store.faults)
    ensures Answers(store.content, ranges, answers)
    ensures store.faults == old(store.faults) <==> AnswersFully(store.content, ranges, answers)
  {
    answers := [];
    for i := 0 to |ranges|
      invariant |answers| == i && store.faults >= old(store.faults)
      invariant Answers(store.content, ranges, answers)
      invariant store.faults == old(store.faults) <==> AnswersFully(store.content, ranges, answers)
    {
      var answer := Fetch(store, ranges[i]);
      OneMoreAnswer(store.content, ranges, answers, answer);
      answers := answers + [answer];
    }
  }

  /** Append the chunks in order; the first failed one fails the whole. */
  method Join(answers: seq<Result<seq<u8>, StoreError>>)
    returns (r: Result<seq<u8>, ReadError>, ghost chunks: seq<seq<u8>>)
    ensures r.Success? <==> forall i :: 0 <= i < |answers| ==> answers[i].Success?
    ensures r.Success? ==> r.value == Concat(chunks) && |chunks| == |answers| && forall i :: 0 <= i < |answers| ==>
              answers[i] == Success(chunks[i])
  {
    chunks := [];
    var bytes: seq<u8> := [];
    for i := 0 to |answers|
      invariant |chunks| == i && bytes == Concat(chunks)
      invariant forall j :: 0 <= j < i ==> answers[j] == Success(chunks[j])
    {
      if answers[i].Failure? {
        return Failure(ReadError), chunks;
      }
      bytes := bytes + answers[i].value;
      assert (chunks + [answers[i].value])[..i] == chunks;
      chunks := chunks + [answers[i].value];
    }
    return Success(bytes), chunks;
  }

  /** Over a partition, full answers all succeed with the whole chunks. */
  lemma FullAnswers(content: seq<u8>, ranges: seq<Range>, answers: seq<Result<seq<u8>, StoreError>>)
    requires |content| <= U64_MAX && Partition(ranges, |content|) && |answers| == |ranges|
    requires AnswersFully(content, ranges, answers)
    ensures forall i :: 0 <= i < |answers| ==>
              ranges[i].start <= ranges[i].end <= |content| &&
                  answers[i] == Success(content[ranges[i].start..ranges[i].end])
  {
    forall i | 0 <= i < |answers| ensures ranges[i].start <= ranges[i].end <= |content| {
      PartitionInside(content, ranges, i);
    }
  }

  /** Over a partition, chunks that add up to the length of the object are the whole chunks. */
  lemma {:induction false} WholeBelow(content: seq<u8>, ranges: seq<Range>, chunks: seq<seq<u8>>, n: nat)
    requires |content| <= U64_MAX && Partition(ranges, |content|) && ChunksOf(content, ranges, chunks)
    requires 0 < n <= |chunks| && |Concat(chunks[..n])| == ranges[n - 1].end
    ensures forall i :: 0 <= i < n ==> chunks[i] == content[ranges[i].start..ranges[i].end]
  {
    var front := chunks[..n - 1];
    assert chunks[..n][..n - 1] == front;
    ChunksRebuild(content, ranges, front);
    if n > 1 {
      WholeBelow(content, ranges, chunks, n - 1);
    }
  }

  lemma WholeAnswers(content: seq<u8>, ranges: seq<Range>, chunks: seq<seq<u8>>)
    requires |content| <= U64_MAX && Partition(ranges, |content|) && ChunksOf(content, ranges, chunks)
    requires |chunks| == |ranges| && Concat(chunks) == content
    ensures WholeChunks(content, ranges, chunks)
  {
    Everything(chunks, |chunks|);
    WholeBelow(content, ranges, chunks, |chunks|);
  }

  /** Joined chunks are the object exactly when every answer came in full. */
  lemma JoinedIsWhole(content: seq<u8>, ranges: seq<Range>, answers: seq<Result<seq<u8>, StoreError>>,
                      chunks: seq<seq<u8>>)
    requires |content| <= U64_MAX && Partition(ranges, |content|) && Answers(content, ranges, answers)
    requires |chunks| == |answers| == |ranges| && forall i :: 0 <= i < |answers| ==> answers[i] == Success(chunks[i])
    ensures Concat(chunks) == content <==> AnswersFully(content, ranges, answers)
  {
    if Concat(chunks) == content {
      assert ChunksOf(content, ranges, chunks);
      WholeAnswers(content, ranges, chunks);
    } else if AnswersFully(content, ranges, answers) {
      FullAnswers(content, ranges, answers);
      FullChunks(content, ranges, chunks);
    }
  }

  /** The whole chunks, of which the last lacks its last byte. */
  function Shortened(content: seq<u8>, ranges: seq<Range>, whole: seq<seq<u8>>): seq<seq<u8>>
    requires ranges != [] && |whole| == |ranges| && ranges[|ranges| - 1].start < |content|
  {
    whole[..|ranges| - 1] + [content[ranges[|ranges| - 1].start..|content| - 1]]
  }

  lemma ShortenedJoin(content: seq<u8>, ranges: seq<Range>, whole: seq<seq<u8>>)
    requires |content| <= U64_MAX && Partition(ranges, |content|) && WholeChunks(content, ranges, whole)
    ensures Concat(Shortened(content, ranges, whole)) == content[..|content| - 1]
  {
    var last := |ranges| - 1;
    var chunks := Shortened(content, ranges, whole);
    assert chunks[..last] == whole[..last];
    if last > 0 {
      FirstChunks(content, ranges, whole, last);
      assert ranges[last - 1].end == ranges[last].start;
    }
    assert content[..|content| - 1] == content[..ranges[last].start] + chunks[last];
  }

  lemma ShortenedIsAnswer(content: seq<u8>, ranges: seq<Range>, whole: seq<seq<u8>>, i: nat)
    requires |content| <= U64_MAX && Partition(ranges, |content|) && WholeChunks(content, ranges, whole) && i < |ranges|
    ensures Shortened(content, ranges, whole)[i] <= content[ranges[i].start..ranges[i].end]
  {
  }

  lemma ChunksOfPartition(content: seq<u8>, ranges: seq<Range>) returns (whole: seq<seq<u8>>)
    requires |content| <= U64_MAX && Partition(ranges, |content|)
    ensures WholeChunks(content, ranges, whole)
  {
    forall i | 0 <= i < |ranges| ensures ranges[i].start <= ranges[i].end <= |content| {
      PartitionInside(content, ranges, i);
    }
    whole := seq(|ranges|, i requires 0 <= i < |ranges| => content[ranges[i].start..ranges[i].end]);
  }

  function Succeeding(chunks: seq<seq<u8>>): seq<Result<seq<u8>, StoreError>> {
    seq(|chunks|, i requires 0 <= i < |chunks| => Success(chunks[i]))
  }

  /** Answers that all succeed, one of them a byte short: their join is accepted without that byte. */
  lemma ShortAnswerIsJoined(content: seq<u8>, ranges: seq<Range>) returns (chunks: seq<seq<u8>>)
    requires |content| <= U64_MAX && Partition(ranges, |content|)
    ensures |chunks| == |ranges| && Answers(content, ranges, Succeeding(chunks))
    ensures Concat(chunks) == content[..|content| - 1]
  {
    var whole := ChunksOfPartition(content, ranges);
    chunks := Shortened(content, ranges, whole);
    ShortenedJoin(content, ranges, whole);
    forall i | 0 <= i < |ranges| ensures chunks[i] <= content[ranges[i].start..ranges[i].end] {
      ShortenedIsAnswer(content, ranges, whole, i);
    }
  }

  /**
    The parallel branch of `read_remote_artifact`.  It gives the object exactly when the split is
    a partition and no answer failed or came back short; chunk lengths are not compared, so a
    short answer gives a shorter result.
   */
  method ReadRemoteArtifact(store: Store, concurrency: u64) returns (r: Result<seq<u8>, ReadError>)
    requires CHUNK_TARGET < |store.content| <= U64_MAX && MIN_CONCURRENCY <= concurrency <= MAX_CONCURRENCY
    modifies store
    ensures r.Success? ==> |r.value| <= |store.content| && (|r.value| == |store.content| ==> r.value == store.content)
    ensures r == Success(store.content) <==>
              Partition(RemoteArtifactRanges(|store.content|, concurrency), |store.content|) &&
                  store.faults == old(store.faults)
  {
    var ranges := RemoteArtifactRanges(|store.content|, concurrency);
    var answers := FetchAll(store, ranges);
    ghost var chunks;
    r, chunks := Join(answers);
    if r.Success? {
      WholeObject(store.content, concurrency, chunks);
      JoinedIsWhole(store.content, ranges, answers, chunks);
    } else if Partition(ranges, |store.content|) && AnswersFully(store.content, ranges, answers) {
      FullAnswers(store.content, ranges, answers);
    }
  }

  lemma WholeObject(content: seq<u8>, concurrency: u64, chunks: seq<seq<u8>>)
    requires CHUNK_TARGET < |content| <= U64_MAX && MIN_CONCURRENCY <= concurrency <= MAX_CONCURRENCY
    requires |chunks| == RangeCount(|content|, concurrency)
    requires ChunksOf(content, RemoteArtifactRanges(|content|, concurrency), chunks)
    ensures Partition(RemoteArtifactRanges(|content|, concurrency), |content|)
    ensures |Concat(chunks)| <= |content| && (|Concat(chunks)| == |content| ==> Concat(chunks) == content)
  {
    var ranges := RemoteArtifactRanges(|content|, concurrency);
    SplitIsPartition(|content|, concurrency);
    ReadableMeansNoWrap(|content|, concurrency);
    ChunksRebuild(content, ranges, chunks);
    assert content[..|content|] == content;
  }

  /** A wrapped last range runs backwards, so the store refuses it. */
  lemma ReadableMeansNoWrap(size: u64, concurrency: u64)
    requires CHUNK_TARGET < size && MIN_CONCURRENCY <= concurrency <= MAX_CONCURRENCY
    requires var last := ArtifactRange(size, concurrency, RangeCount(size, concurrency) - 1); last.start <= last.end
    ensures Partition(RemoteArtifactRanges(size, concurrency), size)
  {
    SplitIsPartition(size, concurrency);
    if RangeCount(size, concurrency) * RangeSize(size, concurrency) > U64_MAX {
      WrappedEnd(size, concurrency);
    }
  }
}
