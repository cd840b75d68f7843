/**
 * Two helpers of GoLTWeb/utils.js: createSeed, which fills a new board with
 * one living square five cells in from every edge, and Number.prototype.clamp.
 */
module Seeds {
  import opened Wrappers
  import opened Automaton

  // ---------------------------------------------------------------------------
  // Pixel offsets
  // ---------------------------------------------------------------------------

  /** The index of channel `c` of pixel (i, j) in a board of `height` rows of `width` pixels. */
  function Offset(width: nat, height: nat, i: nat, j: nat, c: nat): (k: nat)
    requires i < height && j < width && c < 4
    ensures k < width * height * 4
  {
    OffsetBound(width, height, i, j);
    (i * width + j) * 4 + c
  }

  lemma OffsetBound(width: nat, height: nat, i: nat, j: nat)
    requires i < height && j < width
    ensures i * width + j < width * height
  {
    RowsApart(width, i, j, height, 0);
    assert height * width == width * height;
  }

  /** Row `i` of a board ends before row `i2` starts, for i < i2. */
  lemma RowsApart(width: nat, i: nat, j: nat, i2: nat, j2: nat)
    requires j < width && i < i2
    ensures i * width + j < i2 * width + j2
  {
    var d: nat := i2 - i - 1;
    Distrib(i + 1, d, width);
    Distrib(i, 1, width);
    assert d * width >= 0;
  }

  lemma Distrib(a: int, b: int, w: int)
    ensures (a + b) * w == a * w + b * w
  {
  }

  /** Different channels of different pixels lie at different offsets. */
  lemma OffsetInjective(width: nat, height: nat, i: nat, j: nat, c: nat, i2: nat, j2: nat, c2: nat)
    requires i < height && j < width && c < 4
    requires i2 < height && j2 < width && c2 < 4
    requires Offset(width, height, i, j, c) == Offset(width, height, i2, j2, c2)
    ensures i == i2 && j == j2 && c == c2
  {
    var p, p2 := i * width + j, i2 * width + j2;
    assert p * 4 + c == p2 * 4 + c2;
    assert p == p2;
    if i < i2 {
      RowsApart(width, i, j, i2, j2);
    } else if i2 < i {
      RowsApart(width, i2, j2, i, j);
    }
  }

  // ---------------------------------------------------------------------------
  // createSeed
  // ---------------------------------------------------------------------------

  /** Whether createSeed fills pixel (i, j): five or more cells in from every edge. */
  predicate Inside(width: int, height: int, i: int, j: int) {
    5 <= i < height - 5 && 5 <= j < width - 5
  }

  /** The byte createSeed leaves in channel `c` of pixel (i, j): 255 in the red channel inside, 0 elsewhere. */
  function SeedByte(width: int, height: int, i: int, j: int, c: int): byte {
    if c == 0 && Inside(width, height, i, j) then 255 else 0
  }

  /** `b` is the board createSeed(width, height) returns. */
  ghost predicate IsSeed(width: nat, height: nat, b: Board) {
    |b| == width * height * 4 &&
    forall i: nat, j: nat, c: nat | i < height && j < width && c < 4 ::
      b[Offset(width, height, i, j, c)] == SeedByte(width, height, i, j, c)
  }

  /**
   * The red byte of pixel (i, j) is filled after rows 5..`rows` and, in row
   * `rows`, columns 5..`cols`.
   */
  predicate FilledBefore(width: int, rows: int, cols: int, i: int, j: int) {
    (5 <= i < rows && 5 <= j < width - 5) || (i == rows && 5 <= j < cols)
  }

  /** The bytes of `arr` once the rows before `rows`, and row `rows` up to column `cols`, are filled. */
  ghost predicate FilledUpTo(arr: array<byte>, width: nat, height: nat, rows: int, cols: int)
    reads arr
    requires arr.Length == width * height * 4
  {
    forall a: nat, b: nat, c: nat | a < height && b < width && c < 4 ::
      arr[Offset(width, height, a, b, c)] == if c == 0 && FilledBefore(width, rows, cols, a, b) then 255 else 0
  }

  /** createSeed(width, height): a fresh board holding the seed. */
  method CreateSeed(width: nat, height: nat) returns (arr: array<byte>)
    ensures fresh(arr)
    ensures IsSeed(width, height, arr[..])
  {
    arr := new byte[width * height * 4](_ => 0);
    var i := 5;
    while i < height - 5
      invariant 5 <= i && (i <= height - 5 || i == 5)
      invariant FilledUpTo(arr, width, height, i, 5)
    {
      FillRow(arr, width, height, i);
      i := i + 1;
    }
    FilledIsSeed(arr, width, height, i);
  }

  /** Once every row createSeed visits is filled, the board is the seed. */
  lemma FilledIsSeed(arr: array<byte>, width: nat, height: nat, rows: int)
    requires arr.Length == width * height * 4 && FilledUpTo(arr, width, height, rows, 5)
    requires 5 <= rows && (rows == height - 5 || (rows == 5 && height - 5 <= 5))
    ensures IsSeed(width, height, arr[..])
  {
    forall a: nat, b: nat, c: nat | a < height && b < width && c < 4
      ensures arr[..][Offset(width, height, a, b, c)] == SeedByte(width, height, a, b, c)
    {
      assert FilledBefore(width, rows, 5, a, b) <==> Inside(width, height, a, b);
    }
  }

  /** The inner loop of createSeed: fills the red bytes of row `i`, columns 5 to width-6. */
  method FillRow(arr: array<byte>, width: nat, height: nat, i: nat)
    requires arr.Length == width * height * 4 && 5 <= i < height - 5
    requires FilledUpTo(arr, width, height, i, 5)
    modifies arr
    ensures FilledUpTo(arr, width, height, i + 1, 5)
  {
    var j := 5;
    while j < width - 5
      invariant 5 <= j && (j <= width - 5 || j == 5)
      invariant FilledUpTo(arr, width, height, i, j)
    {
      Fill(arr, width, height, i, j);
      j := j + 1;
    }
    forall a: nat, b: nat | a < height && b < width
      ensures FilledBefore(width, i, j, a, b) == FilledBefore(width, i + 1, 5, a, b)
    {
    }
  }

  /** One step of the inner loop: `arr[(i*width + j)*4] = 255`. */
  method Fill(arr: array<byte>, width: nat, height: nat, i: nat, j: nat)
    requires arr.Length == width * height * 4 && 5 <= i < height - 5 && 5 <= j < width - 5
    requires FilledUpTo(arr, width, height, i, j)
    modifies arr
    ensures FilledUpTo(arr, width, height, i, j + 1)
  {
    forall a: nat, b: nat, c: nat | a < height && b < width && c < 4 &&
      Offset(width, height, a, b, c) == Offset(width, height, i, j, 0)
      ensures a == i && b == j && c == 0
    {
      OffsetInjective(width, height, a, b, c, i, j, 0);
    }
    arr[Offset(width, height, i, j, 0)] := 255;
  }

  /**
   * getCell on a fresh seed: a cell is active exactly when it lies five or
   * more cells in from every edge, and every age is 0.
   */
  lemma SeedCells(width: nat, height: nat, b: Board, x: nat, y: nat)
    requires IsSeed(width, height, b) && x < height && y < width
    ensures CellAt(b, width, x, y) == Cell(Inside(width, height, x, y), Some(0))
  {
    assert (x * width + y) * 4 == Offset(width, height, x, y, 0);
    assert (x * width + y) * 4 + 1 == Offset(width, height, x, y, 1);
  }

  // ---------------------------------------------------------------------------
  // clamp
  // ---------------------------------------------------------------------------

  /**
   * v.clamp(lo, hi) = Math.min(Math.max(v, lo), hi): within [lo, hi] when
   * lo <= hi, `v` itself when already there; when lo > hi it is always `hi`.
   * JavaScript numbers are modelled as reals, so fractions such as the
   * `x / 255` that the viewer clamps to [0, 1] are covered.
   */
  function Clamp(v: real, lo: real, hi: real): (r: real)
    ensures lo <= hi ==> lo <= r <= hi
    ensures lo <= v <= hi ==> r == v
    ensures v < lo <= hi ==> r == lo
    ensures v > hi || lo > hi ==> r == hi
  {
    var up := if v > lo then v else lo;
    if up < hi then up else hi
  }
}
