/**
  Shared vocabulary: machine integers, results, byte ranges, and the few facts about
  division that the index arithmetic of the reader rests on.

  A machine integer is a subset type of `int`.  An operation that the program performs
  unchecked is written as its own assignment to a `u32` or `u64` variable, so that the
  verifier has to show that it stays in range.
 */
module Prelude {
  const U32_MAX: int := 0xFFFF_FFFF
  const U64_MAX: int := 0xFFFF_FFFF_FFFF_FFFF

  type u8 = x: int | 0 <= x < 0x100
  type u16 = x: int | 0 <= x < 0x1_0000
  type u32 = x: int | 0 <= x < 0x1_0000_0000
  type u64 = x: int | 0 <= x < 0x1_0000_0000_0000_0000

  datatype Option<+T> = None | Some(value: T)

  datatype Result<+T, +E> = Success(value: T) | Failure(error: E) {
    predicate IsFailure() {
      Failure?
    }

    function PropagateFailure<U>(): Result<U, E>
      requires Failure?
    {
      Failure(error)
    }

    function Extract(): T
      requires Success?
    {
      value
    }
  }

  /** The two rasters of a dataset. */
  datatype RasterKind = FlowDir | FlowAcc

  /** Half-open byte range. */
  datatype Range = Range(start: u64, end: u64)

  function Min(a: int, b: int): int {
    if a < b then a else b
  }

  function Max(a: int, b: int): int {
    if a < b then b else a
  }

  /** Rust's `div_ceil`. */
  function DivCeil(a: nat, b: nat): nat
    requires b > 0
  {
    if a % b > 0 then a / b + 1 else a / b
  }

  lemma MulMono(a: int, b: int, c: int)
    requires a <= b && 0 <= c
    ensures a * c <= b * c
  {
  }

  /** A multiple of `n` that is smaller than `n` in magnitude is zero. */
  lemma SmallMultiple(d: int, n: int)
    requires -n < d * n < n
    ensures d == 0
  {
    if d != 0 {
      MulMono(1, if d > 0 then d else -d, n);
    }
  }

  /** Quotient and remainder are determined by any decomposition with a small remainder. */
  lemma DivModUnique(k: int, q: int, r: int, n: int)
    requires n > 0 && 0 <= r < n
    requires k == q * n + r
    ensures k / n == q && k % n == r
  {
    var d := q - k / n;
    assert d * n == k % n - r;
    SmallMultiple(d, n);
  }

  lemma QuotientAndRest(a: nat, b: nat)
    requires b > 0
    ensures a == (a / b) * b + a % b
  {
  }

  /** `DivCeil(a, b)` is the least number of blocks of size `b` that hold `a`. */
  lemma DivCeilBounds(a: nat, b: nat)
    requires b > 0
    ensures a <= DivCeil(a, b) * b < a + b
  {
    assert a == (a / b) * b + a % b;
  }

  /** Position `(row, col)` of a row-major block lies inside the block. */
  lemma CellInBounds(row: int, col: int, width: nat, height: nat)
    requires 0 <= row < height && 0 <= col < width
    ensures 0 <= row * width + col < height * width
  {
    MulMono(row + 1, height, width);
    MulMono(0, row, width);
  }

  /** Row and column of a position inside a row-major block. */
  lemma CellOf(k: int, width: nat, height: nat)
    requires width > 0 && 0 <= k < height * width
    ensures 0 <= k / width < height && 0 <= k % width < width
    ensures k == (k / width) * width + k % width
  {
    if k / width >= height {
      MulMono(height, k / width, width);
    }
  }

  lemma QuotientFits(a: nat, b: nat)
    requires b > 0
    ensures 0 <= a / b <= a
  {
    assert a == (a / b) * b + a % b;
    MulMono(1, b, a / b);
  }

  lemma ProductFits(a: u32, b: u32)
    ensures 0 <= a * b <= U64_MAX
  {
    MulMono(0, a, b);
    MulMono(a, U32_MAX, b);
  }

  lemma DivMono(a: nat, b: nat, n: nat)
    requires a <= b && n > 0
    ensures a / n <= b / n
  {
    if a / n > b / n {
      MulMono(b / n + 1, a / n, n);
    }
  }

  lemma QuotientWindow(x: nat, q: nat, n: nat)
    requires n > 0
    ensures x / n == q <==> q * n <= x < (q + 1) * n
  {
    if q * n <= x < (q + 1) * n {
      DivModUnique(x, q, x - q * n, n);
    }
  }

  /** Row-major positions are ordered by row first. */
  lemma RowMajorLess(row: nat, col: nat, row': nat, col': nat, width: nat)
    requires col < width && col' < width
    requires row < row' || (row == row' && col < col')
    ensures row * width + col < row' * width + col'
  {
    if row < row' {
      MulMono(row + 1, row', width);
    }
  }

  /** A later position of a row-major block is in a later row, or later in the same row. */
  lemma LaterPosition(j: nat, k: nat, width: nat)
    requires width > 0 && j < k
    ensures j / width < k / width || (j / width == k / width && j % width < k % width)
  {
    DivMono(j, k, width);
    assert j == (j / width) * width + j % width;
    assert k == (k / width) * width + k % width;
  }

  /** What a wrapping 64-bit counter or product holds. */
  function Wrapped(n: nat): u64 {
    n % (U64_MAX + 1)
  }

  lemma SmallWrap(n: nat)
    requires n <= U64_MAX
    ensures Wrapped(n) == n
  {
    DivModUnique(n, 0, n, U64_MAX + 1);
  }

  lemma SubsetSize<T>(a: set<T>, b: set<T>)
    requires a <= b
    ensures |a| <= |b|
  {
    assert |b| == |a| + |b - a| by { assert a + (b - a) == b; }
  }
}
