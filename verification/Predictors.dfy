/**
  The TIFF predictors, undone in place on an inflated tile.

  Rows are `n` items long.  The running sums restart at every row; the specifications below
  say what position `k` holds, and the encoders they invert are those of TIFF 6.0,
  section 14, and of Adobe's Technical Note 3 for the floating-point predictor.
 */
module Predictors {
  import opened Prelude

  const WORD: int := 0x1_0000_0000

  // ---- Wrapping arithmetic ------------------------------------------------------------

  function AddByte(a: u8, b: u8): u8 {
    if a + b < 256 then a + b else a + b - 256
  }

  function SubByte(a: u8, b: u8): u8 {
    if b <= a then a - b else a - b + 256
  }

  function AddWord(a: u32, b: u32): u32 {
    if a + b < WORD then a + b else a + b - WORD
  }

  function SubWord(a: u32, b: u32): u32 {
    if b <= a then a - b else a - b + WORD
  }

  lemma WrappingInverse(a: u8, b: u8)
    ensures AddByte(a, SubByte(b, a)) == b && SubByte(AddByte(a, b), a) == b
  {
  }

  lemma WrappingWordInverse(a: u32, b: u32)
    ensures AddWord(a, SubWord(b, a)) == b && SubWord(AddWord(a, b), a) == b
  {
  }

  // ---- Rows ---------------------------------------------------------------------------

  /** Where the row of `n` items that holds position `k` starts. */
  function RowStart(k: nat, n: nat): (s: nat)
    requires n > 0
    ensures s <= k
  {
    k - k % n
  }

  /** Positions `row * n` to `row * n + n - 1` form row `row`. */
  lemma RowPosition(row: nat, col: nat, n: nat)
    requires col < n
    ensures 0 <= row * n && RowStart(row * n + col, n) == row * n
  {
    MulMono(0, row, n);
    DivModUnique(row * n + col, row, col, n);
  }

  lemma SameRow(k: nat, n: nat)
    requires n > 0 && RowStart(k, n) < k
    ensures RowStart(k - 1, n) == RowStart(k, n)
  {
    assert k == (k / n) * n + k % n;
    DivModUnique(k - 1, k / n, k % n - 1, n);
  }

  // ---- Byte differencing --------------------------------------------------------------

  /** Sum modulo 256 of the bytes from `start` to `k`. */
  function RunningByte(b: seq<u8>, start: nat, k: nat): u8
    requires start <= k < |b|
    decreases k
  {
    if k == start then b[k]
    else AddByte(RunningByte(b, start, k - 1), b[k])
  }

  function SumRows(b: seq<u8>, n: nat): seq<u8>
    requires n > 0
  {
    seq(|b|, k requires 0 <= k < |b| => RunningByte(b, RowStart(k, n), k))
  }

  /** The encoder: each byte minus the one before it in the row. */
  function DiffRows(b: seq<u8>, n: nat): seq<u8>
    requires n > 0
  {
    seq(|b|, k requires 0 <= k < |b| => if k == RowStart(k, n) then b[k] else SubByte(b[k], b[k - 1]))
  }

  lemma {:induction false} RunningUndoesDiff(b: seq<u8>, n: nat, k: nat)
    requires n > 0 && k < |b|
    ensures RunningByte(DiffRows(b, n), RowStart(k, n), k) == b[k]
  {
    if k != RowStart(k, n) {
      SameRow(k, n);
      RunningUndoesDiff(b, n, k - 1);
      WrappingInverse(b[k - 1], b[k]);
    }
  }

  lemma DiffUndoesRunning(b: seq<u8>, n: nat, k: nat)
    requires n > 0 && k < |b|
    ensures DiffRows(SumRows(b, n), n)[k] == b[k]
  {
    if k != RowStart(k, n) {
      SameRow(k, n);
      WrappingInverse(SumRows(b, n)[k - 1], b[k]);
    }
  }

  /** Summing and differencing rows of bytes are inverse to each other. */
  lemma ByteDifferencingInverse(b: seq<u8>, n: nat)
    requires n > 0
    ensures SumRows(DiffRows(b, n), n) == b
    ensures DiffRows(SumRows(b, n), n) == b
  {
    forall k | 0 <= k < |b|
      ensures SumRows(DiffRows(b, n), n)[k] == b[k] && DiffRows(SumRows(b, n), n)[k] == b[k]
    {
      RunningUndoesDiff(b, n, k);
      DiffUndoesRunning(b, n, k);
    }
  }

  /** The rows that start before `start` summed, the others as they were. */
  function SumBytesBefore(b: seq<u8>, n: nat, start: nat): seq<u8>
    requires n > 0
  {
    seq(|b|, k requires 0 <= k < |b| => if k < start then RunningByte(b, RowStart(k, n), k) else b[k])
  }

  /** The first `count` bytes of the row at `start` summed, the others as they were. */
  function SumBytesOfRow(b: seq<u8>, start: nat, count: nat): seq<u8> {
    seq(|b|, k requires 0 <= k < |b| => if start <= k < start + count then RunningByte(b, start, k) else b[k])
  }

  lemma RunningByteLocal(b: seq<u8>, b': seq<u8>, start: nat, k: nat)
    requires |b| == |b'| && start <= k < |b| && b[start..] == b'[start..]
    ensures RunningByte(b, start, k) == RunningByte(b', start, k)
    decreases k
  {
    assert b[k] == b[start..][k - start] == b'[start..][k - start] == b'[k];
    if k > start {
      RunningByteLocal(b, b', start, k - 1);
    }
  }

  lemma RowFits(row: nat, rows: nat, n: nat)
    requires row < rows
    ensures 0 <= row * n && row * n + n <= rows * n
    ensures (row + 1) * n == row * n + n
  {
    MulMono(0, row, n);
    MulMono(row + 1, rows, n);
  }

  lemma FinishedRow(b: seq<u8>, row: nat, n: nat)
    requires n > 0 && 0 <= row * n && row * n + n <= |b|
    ensures SumBytesOfRow(SumBytesBefore(b, n, row * n), row * n, n) == SumBytesBefore(b, n, row * n + n)
  {
    var start := row * n;
    var b' := SumBytesBefore(b, n, start);
    assert b[start..] == b'[start..];
    forall k | start <= k < start + n
      ensures RunningByte(b', start, k) == RunningByte(b, RowStart(k, n), k)
    {
      RowPosition(row, k - start, n);
      RunningByteLocal(b, b', start, k);
    }
  }

  /** Undo byte differencing row by row, in place. */
  method UndoByteDifferences(a: array<u8>, n: nat)
    requires n > 0 && a.Length % n == 0
    modifies a
    ensures a[..] == SumRows(old(a[..]), n)
  {
    ghost var was := a[..];
    var rows := a.Length / n;
    var start := 0;
    assert rows * n == a.Length;
    assert a[..] == SumBytesBefore(was, n, 0);
    for row := 0 to rows
      invariant start == row * n
      invariant a[..] == SumBytesBefore(was, n, start)
    {
      RowFits(row, rows, n);
      UndoRow(a, start, n);
      FinishedRow(was, row, n);
      start := start + n;
    }
    assert SumBytesBefore(was, n, start) == SumRows(was, n);
  }

  /** The running sum of one row. */
  method UndoRow(a: array<u8>, start: nat, n: nat)
    requires n > 0 && start + n <= a.Length
    modifies a
    ensures a[..] == SumBytesOfRow(old(a[..]), start, n)
  {
    ghost var was := a[..];
    assert was == SumBytesOfRow(was, start, 1);
    for index := 1 to n
      invariant a[..] == SumBytesOfRow(was, start, index)
    {
      ghost var before := a[..];
      a[start + index] := AddByte(a[start + index], a[start + index - 1]);
      assert a[..] == before[start + index := AddByte(before[start + index], before[start + index - 1])];
    }
  }

  /** Plain sum of the bytes from `start` to `k`. */
  function SumOfBytes(b: seq<u8>, start: nat, k: nat): nat
    requires start <= k < |b|
    decreases k
  {
    if k == start then b[k] else SumOfBytes(b, start, k - 1) + b[k]
  }

  /** An undone byte is the sum of the differences of its row so far, modulo 256. */
  lemma {:induction false} UndoneByteIsSum(b: seq<u8>, start: nat, k: nat)
    requires start <= k < |b|
    ensures RunningByte(b, start, k) == SumOfBytes(b, start, k) % 0x100
    decreases k
  {
    if k > start {
      UndoneByteIsSum(b, start, k - 1);
    }
  }

  // ---- 32-bit words -------------------------------------------------------------------

  function FromLe(b0: u8, b1: u8, b2: u8, b3: u8): u32 {
    b0 + 0x100 * b1 + 0x1_0000 * b2 + 0x100_0000 * b3
  }

  /** Byte `i` of a word, least significant first. */
  function LeByte(w: u32, i: nat): u8
    requires i < 4
  {
    match i
    case 0 => w % 0x100
    case 1 => (w / 0x100) % 0x100
    case 2 => (w / 0x1_0000) % 0x100
    case _ => (w / 0x100_0000) % 0x100
  }

  /** Dividing by 0x100 once more. */
  lemma NextQuotient(w: nat, n: nat, q: nat, wide: nat)
    requires 0 < n && q == w / n && wide == 0x100 * n
    ensures w / wide == q / 0x100 && q == 0x100 * (q / 0x100) + q % 0x100
  {
    QuotientAndRest(w, n);
    QuotientAndRest(q, 0x100);
    var high, low := q / 0x100, q % 0x100;
    MulMono(low, 0xFF, n);
    assert q * n == high * wide + low * n;
    MulMono(0, low, n);
    DivModUnique(w, high, low * n + w % n, wide);
  }

  lemma FromLeBytes(w: u32)
    ensures FromLe(LeByte(w, 0), LeByte(w, 1), LeByte(w, 2), LeByte(w, 3)) == w
  {
    QuotientAndRest(w, 0x100);
    NextQuotient(w, 0x100, w / 0x100, 0x1_0000);
    NextQuotient(w, 0x1_0000, w / 0x1_0000, 0x100_0000);
  }

  lemma LeBytesFrom(b0: u8, b1: u8, b2: u8, b3: u8)
    ensures LeByte(FromLe(b0, b1, b2, b3), 0) == b0
    ensures LeByte(FromLe(b0, b1, b2, b3), 1) == b1
    ensures LeByte(FromLe(b0, b1, b2, b3), 2) == b2
    ensures LeByte(FromLe(b0, b1, b2, b3), 3) == b3
  {
    var w := FromLe(b0, b1, b2, b3);
    DivModUnique(w, b1 + 0x100 * b2 + 0x1_0000 * b3, b0, 0x100);
    DivModUnique(w, b2 + 0x100 * b3, b0 + 0x100 * b1, 0x1_0000);
    DivModUnique(w, b3, b0 + 0x100 * b1 + 0x1_0000 * b2, 0x100_0000);
    DivModUnique(w / 0x100, b2 + 0x100 * b3, b1, 0x100);
    DivModUnique(w / 0x1_0000, b3, b2, 0x100);
  }

  /** The `k`-th little-endian word of a byte sequence. */
  function WordAt(b: seq<u8>, k: nat): u32
    requires 4 * k + 3 < |b|
  {
    FromLe(b[4 * k], b[4 * k + 1], b[4 * k + 2], b[4 * k + 3])
  }

  function Words(b: seq<u8>): (w: seq<u32>)
    ensures |w| == |b| / 4
  {
    seq(|b| / 4, k requires 0 <= k < |b| / 4 => WordAt(b, k))
  }

  /** Little-endian bytes of a sequence of words. */
  function Bytes(w: seq<u32>): (b: seq<u8>)
    ensures |b| == 4 * |w|
  {
    seq(4 * |w|, k requires 0 <= k < 4 * |w| => LeByte(w[k / 4], k % 4))
  }

  lemma BytesAt(w: seq<u32>, k: nat)
    requires k < |w|
    ensures forall i :: 0 <= i < 4 ==> Bytes(w)[4 * k + i] == LeByte(w[k], i)
  {
  }

  lemma WordOfBytes(w: seq<u32>, k: nat)
    requires k < |w|
    ensures WordAt(Bytes(w), k) == w[k]
  {
    var b := Bytes(w);
    BytesAt(w, k);
    assert b[4 * k + 0] == LeByte(w[k], 0) && b[4 * k + 1] == LeByte(w[k], 1);
    assert b[4 * k + 2] == LeByte(w[k], 2) && b[4 * k + 3] == LeByte(w[k], 3);
    FromLeBytes(w[k]);
  }

  lemma WordsOfBytes(w: seq<u32>)
    ensures Words(Bytes(w)) == w
  {
    forall k | 0 <= k < |w| ensures WordAt(Bytes(w), k) == w[k] {
      WordOfBytes(w, k);
    }
  }

  lemma BytesOfWord(b: seq<u8>, k: nat)
    requires |b| % 4 == 0 && 4 * k + 3 < |b|
    ensures Bytes(Words(b))[4 * k] == b[4 * k] && Bytes(Words(b))[4 * k + 1] == b[4 * k + 1]
    ensures Bytes(Words(b))[4 * k + 2] == b[4 * k + 2] && Bytes(Words(b))[4 * k + 3] == b[4 * k + 3]
  {
    var w := Words(b);
    BytesAt(w, k);
    assert Bytes(w)[4 * k + 0] == LeByte(w[k], 0) && Bytes(w)[4 * k + 1] == LeByte(w[k], 1);
    assert Bytes(w)[4 * k + 2] == LeByte(w[k], 2) && Bytes(w)[4 * k + 3] == LeByte(w[k], 3);
    LeBytesFrom(b[4 * k], b[4 * k + 1], b[4 * k + 2], b[4 * k + 3]);
  }

  lemma BytesOfWords(b: seq<u8>)
    requires |b| % 4 == 0
    ensures Bytes(Words(b)) == b
  {
    forall j | 0 <= j < |b| ensures Bytes(Words(b))[j] == b[j] {
      BytesOfWord(b, j / 4);
    }
  }

  /** Two's-complement sum of the words from `start` to `k`, as a bit pattern. */
  function RunningWord(w: seq<u32>, start: nat, k: nat): u32
    requires start <= k < |w|
    decreases k
  {
    if k == start then w[k]
    else AddWord(RunningWord(w, start, k - 1), w[k])
  }

  /** Plain sum of the words from `start` to `k`. */
  function SumOfWords(w: seq<u32>, start: nat, k: nat): nat
    requires start <= k < |w|
    decreases k
  {
    if k == start then w[k] else SumOfWords(w, start, k - 1) + w[k]
  }

  /** An undone word is the sum of the differences of its row so far, modulo 2^32. */
  lemma {:induction false} UndoneWordIsSum(w: seq<u32>, start: nat, k: nat)
    requires start <= k < |w|
    ensures RunningWord(w, start, k) == SumOfWords(w, start, k) % WORD
    decreases k
  {
    if k > start {
      UndoneWordIsSum(w, start, k - 1);
    }
  }

  function SumWordRows(w: seq<u32>, n: nat): seq<u32>
    requires n > 0
  {
    seq(|w|, k requires 0 <= k < |w| => RunningWord(w, RowStart(k, n), k))
  }

  function DiffWordRows(w: seq<u32>, n: nat): seq<u32>
    requires n > 0
  {
    seq(|w|, k requires 0 <= k < |w| => if k == RowStart(k, n) then w[k] else SubWord(w[k], w[k - 1]))
  }

  lemma {:induction false} RunningWordUndoesDiff(w: seq<u32>, n: nat, k: nat)
    requires n > 0 && k < |w|
    ensures RunningWord(DiffWordRows(w, n), RowStart(k, n), k) == w[k]
  {
    if k != RowStart(k, n) {
      SameRow(k, n);
      RunningWordUndoesDiff(w, n, k - 1);
      WrappingWordInverse(w[k - 1], w[k]);
    }
  }

  lemma DiffUndoesRunningWord(w: seq<u32>, n: nat, k: nat)
    requires n > 0 && k < |w|
    ensures DiffWordRows(SumWordRows(w, n), n)[k] == w[k]
  {
    if k != RowStart(k, n) {
      SameRow(k, n);
      WrappingWordInverse(SumWordRows(w, n)[k - 1], w[k]);
    }
  }

  /** Summing and differencing rows of 32-bit words are inverse to each other. */
  lemma WordDifferencingInverse(w: seq<u32>, n: nat)
    requires n > 0
    ensures SumWordRows(DiffWordRows(w, n), n) == w
    ensures DiffWordRows(SumWordRows(w, n), n) == w
  {
    forall k | 0 <= k < |w|
      ensures SumWordRows(DiffWordRows(w, n), n)[k] == w[k] && DiffWordRows(SumWordRows(w, n), n)[k] == w[k]
    {
      RunningWordUndoesDiff(w, n, k);
      DiffUndoesRunningWord(w, n, k);
    }
  }

  /** The bytes at word `k` of a buffer spell `w`. */
  ghost predicate HoldsWord(b: seq<u8>, k: nat, w: u32)
    requires 4 * k + 3 < |b|
  {
    && b[4 * k] == LeByte(w, 0) && b[4 * k + 1] == LeByte(w, 1)
    && b[4 * k + 2] == LeByte(w, 2) && b[4 * k + 3] == LeByte(w, 3)
  }

  /** The rows that start before `start` summed, the others as they were. */
  function SumWordsBefore(w: seq<u32>, n: nat, start: nat): seq<u32>
    requires n > 0
  {
    seq(|w|, k requires 0 <= k < |w| => if k < start then RunningWord(w, RowStart(k, n), k) else w[k])
  }

  /** The first `count` words of the row at `start` summed, the others as they were. */
  function SumWordsOfRow(w: seq<u32>, start: nat, count: nat): seq<u32> {
    seq(|w|, k requires 0 <= k < |w| => if start <= k < start + count then RunningWord(w, start, k) else w[k])
  }

  lemma RunningWordLocal(w: seq<u32>, w': seq<u32>, start: nat, k: nat)
    requires |w| == |w'| && start <= k < |w| && w[start..] == w'[start..]
    ensures RunningWord(w, start, k) == RunningWord(w', start, k)
    decreases k
  {
    assert w[k] == w[start..][k - start] == w'[start..][k - start] == w'[k];
    if k > start {
      RunningWordLocal(w, w', start, k - 1);
    }
  }

  lemma FinishedWordRow(w: seq<u32>, row: nat, n: nat)
    requires n > 0 && 0 <= row * n && row * n + n <= |w|
    ensures SumWordsOfRow(SumWordsBefore(w, n, row * n), row * n, n) == SumWordsBefore(w, n, row * n + n)
  {
    var start := row * n;
    var w' := SumWordsBefore(w, n, start);
    assert w[start..] == w'[start..];
    forall k | start <= k < start + n
      ensures RunningWord(w', start, k) == RunningWord(w, RowStart(k, n), k)
    {
      RowPosition(row, k - start, n);
      RunningWordLocal(w, w', start, k);
    }
  }

  /** Writing the bytes of one word changes that word and no other. */
  lemma WordWritten(before: seq<u8>, after: seq<u8>, word: nat, value: u32)
    requires |before| == |after| && 4 * word + 3 < |after|
    requires HoldsWord(after, word, value)
    requires forall j :: 0 <= j < |after| && !(4 * word <= j < 4 * word + 4) ==> after[j] == before[j]
    ensures Words(after) == Words(before)[word := value]
  {
    FromLeBytes(value);
    forall k | 0 <= k < |after| / 4 && k != word ensures WordAt(after, k) == WordAt(before, k) {
    }
  }

  /** Rewrite one little-endian word of a buffer. */
  method StoreLe(a: array<u8>, word: nat, value: u32)
    requires 4 * word + 3 < a.Length
    modifies a
    ensures Words(a[..]) == Words(old(a[..]))[word := value]
  {
    ghost var before := a[..];
    a[4 * word], a[4 * word + 1], a[4 * word + 2], a[4 * word + 3] :=
      LeByte(value, 0), LeByte(value, 1), LeByte(value, 2), LeByte(value, 3);
    WordWritten(before, a[..], word, value);
  }

  method LoadLe(a: array<u8>, word: nat) returns (value: u32)
    requires 4 * word + 3 < a.Length
    ensures word < |Words(a[..])| && value == Words(a[..])[word]
  {
    value := FromLe(a[4 * word], a[4 * word + 1], a[4 * word + 2], a[4 * word + 3]);
  }

  /** Undo 32-bit differencing row by row, rewriting the little-endian words in place. */
  method UndoWordDifferences(a: array<u8>, n: nat)
    requires n > 0 && a.Length % (4 * n) == 0
    modifies a
    ensures Words(a[..]) == SumWordRows(Words(old(a[..])), n)
  {
    ghost var was := Words(a[..]);
    var rows := a.Length / (4 * n);
    var start := 0;
    WordRows(a.Length, n);
    assert Words(a[..]) == SumWordsBefore(was, n, 0);
    for row := 0 to rows
      invariant start == row * n
      invariant Words(a[..]) == SumWordsBefore(was, n, start)
    {
      RowFits(row, rows, n);
      UndoWordRow(a, start, n);
      FinishedWordRow(was, row, n);
      start := start + n;
    }
    assert SumWordsBefore(was, n, start) == SumWordRows(was, n);
  }

  lemma WordRows(len: nat, n: nat)
    requires n > 0 && len % (4 * n) == 0
    ensures 4 * ((len / (4 * n)) * n) == len
  {
    var rows := len / (4 * n);
    assert len == rows * (4 * n);
    assert rows * (4 * n) == 4 * (rows * n);
  }

  lemma SumWordsStep(w: seq<u32>, start: nat, column: nat)
    requires start + column < |w|
    ensures SumWordsOfRow(w, start, column)[start + column := RunningWord(w, start, start + column)]
         == SumWordsOfRow(w, start, column + 1)
  {
  }

  /** The next word of the row is still the difference, and the next sum adds it. */
  lemma NotSummedYet(w: seq<u32>, start: nat, column: nat)
    requires start + column < |w|
    ensures SumWordsOfRow(w, start, column)[start + column] == w[start + column]
    ensures RunningWord(w, start, start + column) ==
              AddWord(if column == 0 then 0 else RunningWord(w, start, start + column - 1), w[start + column])
  {
  }

  /** Replace one word by the running sum up to it. */
  method SumNextWord(a: array<u8>, start: nat, column: nat, previous: u32, ghost was: seq<u32>) returns (value: u32)
    requires 4 * (start + column) + 3 < a.Length && start + column < |was|
    requires previous == if column == 0 then 0 else RunningWord(was, start, start + column - 1)
    requires Words(a[..]) == SumWordsOfRow(was, start, column)
    modifies a
    ensures value == RunningWord(was, start, start + column)
    ensures Words(a[..]) == SumWordsOfRow(was, start, column + 1)
  {
    var difference := LoadLe(a, start + column);
    NotSummedYet(was, start, column);
    value := AddWord(previous, difference);
    StoreLe(a, start + column, value);
    SumWordsStep(was, start, column);
  }

  /** The running sum of one row of words. */
  method UndoWordRow(a: array<u8>, start: nat, n: nat)
    requires 4 * (start + n) <= a.Length
    modifies a
    ensures Words(a[..]) == SumWordsOfRow(Words(old(a[..])), start, n)
  {
    ghost var was := Words(a[..]);
    assert was == SumWordsOfRow(was, start, 0);
    var previous: u32 := 0;
    for column := 0 to n
      invariant previous == if column == 0 then 0 else RunningWord(was, start, start + column - 1)
      invariant Words(a[..]) == SumWordsOfRow(was, start, column)
    {
      previous := SumNextWord(a, start, column, previous, was);
    }
  }

  // ---- Floating-point byte planes -----------------------------------------------------

  function FromBe(b0: u8, b1: u8, b2: u8, b3: u8): u32 {
    FromLe(b3, b2, b1, b0)
  }

  /** Where plane `p` of a row of `n` words starts. */
  function PlaneStart(p: nat, n: nat): nat {
    match p
    case 0 => 0
    case 1 => n
    case 2 => 2 * n
    case _ => 3 * n
  }

  /** The plane, 0 to 3, that an offset into a row of `4 * n` bytes falls in. */
  function PlaneOf(offset: nat, n: nat): (p: nat)
    ensures p < 4 && PlaneStart(p, n) <= offset
    ensures offset < 4 * n ==> offset < PlaneStart(p, n) + n
  {
    if offset < n then 0 else if offset < 2 * n then 1 else if offset < 3 * n then 2 else 3
  }

  /** Where byte plane `p` of a row of `n` words keeps its byte of word `k`. */
  function PlanePosition(k: nat, n: nat, p: nat): nat
    requires n > 0
  {
    4 * RowStart(k, n) + PlaneStart(p, n) + (k - RowStart(k, n))
  }

  /** Rows of `n` words are rows of `4 * n` bytes. */
  lemma WideRow(row: nat, n: nat, len: nat)
    requires n > 0 && len % n == 0 && row < len / n
    ensures row * (4 * n) == 4 * (row * n)
    ensures 0 <= row * n && row * n + n <= len
  {
    RowFits(row, len / n, n);
  }

  lemma WordRow(k: nat, n: nat, len: nat)
    requires n > 0 && len % n == 0 && k < len
    ensures var row := k / n;
            && row < len / n && RowStart(k, n) == row * n <= k < row * n + n
  {
    CellOf(k, n, len / n);
  }

  lemma ByteRow(j: nat, n: nat, len: nat)
    requires n > 0 && len % n == 0 && j < 4 * len
    ensures var row := j / (4 * n);
            && row < len / n && RowStart(j, 4 * n) == row * (4 * n) <= j < row * (4 * n) + 4 * n
  {
    assert (len / n) * (4 * n) == 4 * ((len / n) * n);
    CellOf(j, 4 * n, len / n);
  }

  lemma PlanePositionFacts(k: nat, n: nat, p: nat, len: nat)
    requires n > 0 && p < 4 && k < len && len % n == 0
    ensures PlanePosition(k, n, p) < 4 * len
    ensures RowStart(PlanePosition(k, n, p), 4 * n) == 4 * RowStart(k, n)
    ensures PlaneOf(PlanePosition(k, n, p) - 4 * RowStart(k, n), n) == p
  {
    var row := k / n;
    WordRow(k, n, len);
    WideRow(row, n, len);
    RowPosition(row, PlaneStart(p, n) + (k - row * n), 4 * n);
  }

  /** Undo the plane split of every row: gather big-endian bytes at the padded row stride. */
  function FromPlanes(b: seq<u8>, n: nat): (w: seq<u32>)
    requires n > 0 && |b| % 4 == 0 && (|b| / 4) % n == 0
    ensures |w| == |b| / 4
  {
    seq(|b| / 4, k requires 0 <= k < |b| / 4 => GatherWord(b, n, k))
  }

  function GatherWord(b: seq<u8>, n: nat, k: nat): u32
    requires n > 0 && |b| % 4 == 0 && (|b| / 4) % n == 0 && k < |b| / 4
  {
    PlanePositionFacts(k, n, 0, |b| / 4);
    PlanePositionFacts(k, n, 1, |b| / 4);
    PlanePositionFacts(k, n, 2, |b| / 4);
    PlanePositionFacts(k, n, 3, |b| / 4);
    FromBe(b[PlanePosition(k, n, 0)], b[PlanePosition(k, n, 1)], b[PlanePosition(k, n, 2)], b[PlanePosition(k, n, 3)])
  }

  /** The word whose byte a plane-split row keeps at position `j`. */
  function PlaneWord(j: nat, n: nat): nat
    requires n > 0
  {
    var offset := j - RowStart(j, 4 * n);
    RowStart(j, 4 * n) / 4 + (offset - PlaneStart(PlaneOf(offset, n), n))
  }

  lemma PlaneWordFacts(j: nat, n: nat, len: nat)
    requires n > 0 && len % n == 0 && j < 4 * len
    ensures PlaneWord(j, n) < len
    ensures PlanePosition(PlaneWord(j, n), n, PlaneOf(j - RowStart(j, 4 * n), n)) == j
  {
    var row := j / (4 * n);
    ByteRow(j, n, len);
    WideRow(row, n, len);
    var offset := j - row * (4 * n);
    var column := offset - PlaneStart(PlaneOf(offset, n), n);
    RowPosition(row, column, n);
    PlaneWordAt(j, n, row * n, column);
  }

  lemma PlaneWordAt(j: nat, n: nat, start: nat, column: nat)
    requires column < n && RowStart(j, 4 * n) == 4 * start && RowStart(start + column, n) == start
    requires column == j - 4 * start - PlaneStart(PlaneOf(j - 4 * start, n), n)
    ensures PlaneWord(j, n) == start + column
    ensures PlanePosition(start + column, n, PlaneOf(j - RowStart(j, 4 * n), n)) == j
  {
  }

  /** Encoder: each row of `n` words becomes four planes of `n` bytes, most significant first. */
  function Planes(w: seq<u32>, n: nat): (b: seq<u8>)
    requires n > 0 && |w| % n == 0
    ensures |b| == 4 * |w|
  {
    seq(4 * |w|, j requires 0 <= j < 4 * |w| => SplitByte(w, n, j))
  }

  function SplitByte(w: seq<u32>, n: nat, j: nat): u8
    requires n > 0 && |w| % n == 0 && j < 4 * |w|
  {
    PlaneWordFacts(j, n, |w|);
    LeByte(w[PlaneWord(j, n)], 3 - PlaneOf(j - RowStart(j, 4 * n), n))
  }

  lemma SplitThenGather(w: seq<u32>, n: nat, k: nat, p: nat)
    requires n > 0 && |w| % n == 0 && k < |w| && p < 4
    ensures PlanePosition(k, n, p) < 4 * |w|
    ensures SplitByte(w, n, PlanePosition(k, n, p)) == LeByte(w[k], 3 - p)
  {
    PlanePositionFacts(k, n, p, |w|);
  }

  lemma GatherThenSplit(b: seq<u8>, n: nat, j: nat)
    requires n > 0 && |b| % 4 == 0 && (|b| / 4) % n == 0 && j < |b|
    ensures SplitByte(FromPlanes(b, n), n, j) == b[j]
  {
    PlaneWordFacts(j, n, |b| / 4);
    var k := PlaneWord(j, n);
    PlanePositionFacts(k, n, 0, |b| / 4);
    PlanePositionFacts(k, n, 1, |b| / 4);
    PlanePositionFacts(k, n, 2, |b| / 4);
    PlanePositionFacts(k, n, 3, |b| / 4);
    LeBytesFrom(b[PlanePosition(k, n, 3)], b[PlanePosition(k, n, 2)], b[PlanePosition(k, n, 1)],
        b[PlanePosition(k, n, 0)]);
  }

  /** Splitting rows into byte planes and gathering them back are inverse to each other. */
  lemma PlanesInverse(w: seq<u32>, b: seq<u8>, n: nat)
    requires n > 0 && |w| % n == 0 && |b| % 4 == 0 && (|b| / 4) % n == 0
    ensures FromPlanes(Planes(w, n), n) == w
    ensures Planes(FromPlanes(b, n), n) == b
  {
    forall k | 0 <= k < |w| ensures GatherWord(Planes(w, n), n, k) == w[k] {
      SplitThenGather(w, n, k, 0);
      SplitThenGather(w, n, k, 1);
      SplitThenGather(w, n, k, 2);
      SplitThenGather(w, n, k, 3);
      FromLeBytes(w[k]);
    }
    forall j | 0 <= j < |b| ensures SplitByte(FromPlanes(b, n), n, j) == b[j] {
      GatherThenSplit(b, n, j);
    }
  }
}
