/** ZXMaskUtils.swift: the eight data-mask conditions and the four mask
    penalty rules of ISO/IEC 18004:2006, sections 6.8.1 and 6.8.2.1. */
module MaskUtils {
  import opened Errors
  import opened Bits
  import opened ByteMatrices

  /** `PenaltyConstants`. */
  const N1 := 3
  const N2 := 3
  const N3 := 40
  const N4 := 10

  // ---------------------------------------------------------------------
  // Data masks

  /** `v & 0x1` on a two's-complement `Int`: the lowest bit, which is also
      the Euclidean remainder by 2 for negative values. */
  function LowBit(v: int): int
  {
    v % 2
  }

  /** `getDataMaskBit(maskPattern:column:row:)`: whether the module at
      column x, row y is inverted, using Swift's truncating `/` and `%`.
      Masks outside 0..7 throw IllegalArgument. */
  function DataMaskBit(maskPattern: int, x: int, y: int): (r: Result<bool>)
    ensures r.Err? <==> !(0 <= maskPattern < 8)
    ensures r.Err? ==> r.error == IllegalArgument
  {
    var temp := y * x;
    if maskPattern == 0 then Ok(LowBit(y + x) == 0)
    else if maskPattern == 1 then Ok(LowBit(y) == 0)
    else if maskPattern == 2 then Ok(SwiftRem(x, 3) == 0)
    else if maskPattern == 3 then Ok(SwiftRem(y + x, 3) == 0)
    else if maskPattern == 4 then Ok(LowBit(SwiftDiv(y, 2) + SwiftDiv(x, 3)) == 0)
    else if maskPattern == 5 then Ok(LowBit(temp) + SwiftRem(temp, 3) == 0)
    else if maskPattern == 6 then Ok(LowBit(LowBit(temp) + SwiftRem(temp, 3)) == 0)
    else if maskPattern == 7 then Ok(LowBit(SwiftRem(temp, 3) + LowBit(y + x)) == 0)
    else Err(IllegalArgument)
  }

  /** The data mask conditions of ISO/IEC 18004:2006 section 6.8.1, Table 10,
      for the module in row i and column j. */
  function StandardMask(m: int, i: nat, j: nat): bool
    requires 0 <= m < 8
  {
    match m
    case 0 => (i + j) % 2 == 0
    case 1 => i % 2 == 0
    case 2 => j % 3 == 0
    case 3 => (i + j) % 3 == 0
    case 4 => (i / 2 + j / 3) % 2 == 0
    case 5 => (i * j) % 2 + (i * j) % 3 == 0
    case 6 => ((i * j) % 2 + (i * j) % 3) % 2 == 0
    case 7 => ((i + j) % 2 + (i * j) % 3) % 2 == 0
  }

  /** For modules inside a symbol the eight masks are those of the standard
      (row i = y, column j = x). */
  lemma MaskMatchesStandard(m: int, x: nat, y: nat)
    requires 0 <= m < 8
    ensures DataMaskBit(m, x, y) == Ok(StandardMask(m, y, x))
  {
    var temp := y * x;
    assert temp >= 0;
    assert SwiftRem(temp, 3) == temp % 3;
  }

  /** Every mask repeats every 6 columns and every 12 rows. */
  lemma MaskPeriodic(m: int, x: nat, y: nat)
    requires 0 <= m < 8
    ensures DataMaskBit(m, x + 6, y) == DataMaskBit(m, x, y)
    ensures DataMaskBit(m, x, y + 12) == DataMaskBit(m, x, y)
  {
    MaskMatchesStandard(m, x, y);
    MaskMatchesStandard(m, x + 6, y);
    MaskMatchesStandard(m, x, y + 12);
    StandardPeriodic(m, y, x);
  }

  lemma StandardPeriodic(m: int, i: nat, j: nat)
    requires 0 <= m < 8
    ensures StandardMask(m, i, j + 6) == StandardMask(m, i, j)
    ensures StandardMask(m, i + 12, j) == StandardMask(m, i, j)
  {
    if m >= 5 {
      ProductShift(i, j, 6);
      ProductShift(j, i, 12);
      Commute(i, j + 6);
      Commute(i + 12, j);
      Commute(i, j);
    } else if m == 4 {
      assert (i + 12) / 2 == i / 2 + 6;
      assert (j + 6) / 3 == j / 3 + 2;
    }
  }

  lemma Commute(a: int, b: int)
    ensures a * b == b * a
  {
  }

  /** Shifting one factor by a multiple of 6 keeps the product's remainders
      by 2 and by 3. */
  lemma ProductShift(a: nat, b: nat, k: nat)
    requires k % 6 == 0
    ensures (a * (b + k)) % 2 == (a * b) % 2 && (a * (b + k)) % 3 == (a * b) % 3
  {
    var q := k / 6;
    var p, m := a * b, a * q;
    assert a * (b + k) == p + 6 * m;
    DivModUnique(p + 6 * m, 2, p / 2 + 3 * m, p % 2);
    DivModUnique(p + 6 * m, 3, p / 3 + 2 * m, p % 3);
  }

  // ---------------------------------------------------------------------
  // Lines of the grid

  /** Column c of the grid, top to bottom (`rawBytes.map { $0[c] }`). */
  function Column(g: seq<seq<uint8>>, c: int): (r: seq<uint8>)
    requires 0 <= c && forall y :: 0 <= y < |g| ==> c < |g[y]|
    ensures |r| == |g| && forall y :: 0 <= y < |g| ==> r[y] == g[y][c]
  {
    if g == [] then [] else Column(g[..|g| - 1], c) + [g[|g| - 1][c]]
  }

  /** Row k of the grid, or column k when the scan is vertical. */
  ghost function Line(g: seq<seq<uint8>>, width: int, isHorizontal: bool, k: int): (r: seq<uint8>)
    requires IsGrid(g, width, |g|)
    requires 0 <= k < (if isHorizontal then |g| else width)
    ensures |r| == (if isHorizontal then width else |g|)
  {
    if isHorizontal then g[k] else Column(g, k)
  }

  // ---------------------------------------------------------------------
  // Rule 1: runs of five or more equal cells

  /** The penalty of one maximal run: N1 + (run - 5) from five cells on. */
  function RunScore(run: int): (r: int)
    ensures r >= 0 && (r == 0 <==> run < 5)
  {
    if run >= 5 then N1 + (run - 5) else 0
  }

  /** The length of the run of equal cells that ends just before position n
      (the `cellRunCount` of the scan after n cells). */
  function RunEnd(line: seq<uint8>, n: int): (r: nat)
    requires 0 <= n <= |line|
    ensures r <= n && (n == 0 <==> r == 0)
  {
    if n == 0 then 0
    else if n >= 2 && line[n - 2] == line[n - 1] then 1 + RunEnd(line, n - 1)
    else 1
  }

  /** The rule-1 score of the first n cells: every maximal run, scored once
      at its end. */
  function ScoreUpTo(line: seq<uint8>, n: int): (r: int)
    requires 0 <= n <= |line|
    ensures r >= 0
    decreases n
  {
    if n == 0 then 0 else ScoreUpTo(line, n - RunEnd(line, n)) + RunScore(RunEnd(line, n))
  }

  /** The rule-1 penalty of one row or column. */
  function LinePenalty(line: seq<uint8>): (r: int)
    ensures r >= 0
  {
    ScoreUpTo(line, |line|)
  }

  /** Five equal cells starting at position i. */
  ghost predicate FiveEqual(line: seq<uint8>, i: int)
    requires 0 <= i && i + 5 <= |line|
  {
    line[i] == line[i + 1] && line[i + 1] == line[i + 2] && line[i + 2] == line[i + 3] && line[i + 3] == line[i + 4]
  }

  /** The line holds no five equal cells in a row. */
  ghost predicate NoFiveEqual(line: seq<uint8>)
  {
    forall i :: 0 <= i && i + 5 <= |line| ==> !FiveEqual(line, i)
  }

  /** Inside the run that ends before n, the run ending earlier is shorter
      by the distance. */
  lemma {:induction false} RunEndInside(line: seq<uint8>, n: int, k: int)
    requires 0 <= n <= |line| && n - RunEnd(line, n) < k <= n
    ensures RunEnd(line, k) == RunEnd(line, n) - (n - k)
    decreases n - k
  {
    if k < n {
      RunEndInside(line, n - 1, k);
    }
  }

  /** The run ending before n reaches five cells exactly when the five cells
      before n are equal. */
  lemma RunEndFive(line: seq<uint8>, n: int)
    requires 5 <= n <= |line|
    ensures RunEnd(line, n) >= 5 <==> FiveEqual(line, n - 5)
  {
    var r1 := RunEnd(line, n - 4);
    var r2 := RunEnd(line, n - 3);
    var r3 := RunEnd(line, n - 2);
    var r4 := RunEnd(line, n - 1);
    assert r1 >= 1;
  }

  /** The first n cells score nothing exactly when no run ending among them
      reaches five cells. */
  lemma {:induction false} ScoreZero(line: seq<uint8>, n: int)
    requires 0 <= n <= |line|
    ensures ScoreUpTo(line, n) == 0 <==> forall k :: 0 < k <= n ==> RunEnd(line, k) < 5
    decreases n
  {
    if n > 0 {
      var start := n - RunEnd(line, n);
      ScoreZero(line, start);
      if ScoreUpTo(line, n) == 0 {
        forall k | start < k <= n
          ensures RunEnd(line, k) < 5
        {
          RunEndInside(line, n, k);
        }
      }
    }
  }

  /** A line scores nothing under rule 1 exactly when it holds no five equal
      cells in a row. */
  lemma LinePenaltyZero(line: seq<uint8>)
    ensures LinePenalty(line) == 0 <==> NoFiveEqual(line)
  {
    ScoreZero(line, |line|);
    forall k | 5 <= k <= |line|
      ensures RunEnd(line, k) >= 5 <==> FiveEqual(line, k - 5)
    {
      RunEndFive(line, k);
    }
    if LinePenalty(line) == 0 {
      forall i | 0 <= i && i + 5 <= |line|
        ensures !FiveEqual(line, i)
      {
        assert RunEnd(line, i + 5) < 5;
      }
    } else {
      var k :| 0 < k <= |line| && RunEnd(line, k) >= 5;
      assert FiveEqual(line, k - 5);
    }
  }

  /** A cell equal to the previous one lengthens the current run. */
  lemma ExtendRun(line: seq<uint8>, n: int)
    requires 0 < n < |line| && line[n - 1] == line[n]
    ensures RunEnd(line, n + 1) == RunEnd(line, n) + 1
    ensures ScoreUpTo(line, n + 1) == ScoreUpTo(line, n) - RunScore(RunEnd(line, n)) + RunScore(RunEnd(line, n) + 1)
  {
  }

  /** A cell different from the previous one starts a new run of length 1. */
  lemma StartRun(line: seq<uint8>, n: int)
    requires 0 <= n < |line| && (n == 0 || line[n - 1] != line[n])
    ensures RunEnd(line, n + 1) == 1
    ensures ScoreUpTo(line, n + 1) == ScoreUpTo(line, n)
  {
  }

  /** The rule-1 penalty of the first n rows (or columns). */
  ghost function LinesPenalty(g: seq<seq<uint8>>, width: int, isHorizontal: bool, n: int): (r: int)
    requires IsGrid(g, width, |g|)
    requires 0 <= n <= (if isHorizontal then |g| else width)
    ensures r >= 0
  {
    if n == 0 then 0
    else LinesPenalty(g, width, isHorizontal, n - 1) + LinePenalty(Line(g, width, isHorizontal, n - 1))
  }

  /** Rule 1 over the whole grid: every row, then every column. */
  ghost function Rule1(g: seq<seq<uint8>>, width: int): int
    requires IsGrid(g, width, |g|) && 0 <= width
  {
    LinesPenalty(g, width, true, |g|) + LinesPenalty(g, width, false, width)
  }

  /** The first n lines score nothing exactly when none of them holds five
      equal cells in a row. */
  lemma {:induction false} LinesPenaltyZero(g: seq<seq<uint8>>, width: int, isHorizontal: bool, n: int)
    requires IsGrid(g, width, |g|)
    requires 0 <= n <= (if isHorizontal then |g| else width)
    ensures LinesPenalty(g, width, isHorizontal, n) == 0 <==>
      forall k :: 0 <= k < n ==> NoFiveEqual(Line(g, width, isHorizontal, k))
  {
    if n > 0 {
      LinesPenaltyZero(g, width, isHorizontal, n - 1);
      LinePenaltyZero(Line(g, width, isHorizontal, n - 1));
    }
  }

  /** Rule 1 is zero exactly when no row and no column holds five equal
      cells in a row. */
  lemma Rule1Zero(g: seq<seq<uint8>>, width: int)
    requires IsGrid(g, width, |g|) && 0 <= width
    ensures Rule1(g, width) == 0 <==>
      (forall k :: 0 <= k < |g| ==> NoFiveEqual(Line(g, width, true, k))) &&
      (forall k :: 0 <= k < width ==> NoFiveEqual(Line(g, width, false, k)))
  {
    LinesPenaltyZero(g, width, true, |g|);
    LinesPenaltyZero(g, width, false, width);
  }

  /** `PenaltyRule1`: the horizontal and the vertical scan added. */
  method PenaltyRule1(matrix: ByteMatrix) returns (penalty: int)
    requires matrix.Valid() && 0 <= matrix.width
    ensures penalty == Rule1(matrix.bytes, matrix.width) && penalty >= 0
  {
    var horizontal := DirectionalPenalty(matrix, true);
    var vertical := DirectionalPenalty(matrix, false);
    penalty := horizontal + vertical;
  }

  /** `createPenaltyRule1(isHorizontal:)` applied to the matrix: one pass
      over every line. */
  method DirectionalPenalty(matrix: ByteMatrix, isHorizontal: bool) returns (penalty: int)
    requires matrix.Valid() && (isHorizontal || 0 <= matrix.width)
    ensures penalty == LinesPenalty(matrix.bytes, matrix.width, isHorizontal,
      if isHorizontal then matrix.height else matrix.width)
  {
    var rowCount := if isHorizontal then matrix.height else matrix.width;
    penalty := 0;
    var row := 0;
    while row < rowCount
      invariant 0 <= row <= rowCount
      invariant penalty == LinesPenalty(matrix.bytes, matrix.width, isHorizontal, row)
    {
      var linePenalty := LineRunPenalty(matrix, isHorizontal, row);
      penalty := penalty + linePenalty;
      row := row + 1;
    }
  }

  /** The inner loop of `createPenaltyRule1(isHorizontal:)` over one line:
      the run ending at each cell is counted, and scored when it ends. */
  method LineRunPenalty(matrix: ByteMatrix, isHorizontal: bool, row: int) returns (penalty: int)
    requires matrix.Valid() && 0 <= row < (if isHorizontal then matrix.height else matrix.width)
    ensures penalty == LinePenalty(Line(matrix.bytes, matrix.width, isHorizontal, row))
  {
    ghost var line := Line(matrix.bytes, matrix.width, isHorizontal, row);
    var colCount := if isHorizontal then matrix.width else matrix.height;
    penalty := 0;
    var cellRunCount := 0;
    var prevBit: uint8 := 255;
    var col := 0;
    while col < colCount
      invariant 0 <= col <= colCount == |line|
      invariant cellRunCount == RunEnd(line, col)
      invariant col > 0 ==> prevBit == line[col - 1]
      invariant col == 0 ==> prevBit == 255
      invariant penalty + RunScore(cellRunCount) == ScoreUpTo(line, col)
    {
      var currBit := if isHorizontal then matrix.Value(col, row) else matrix.Value(row, col);
      assert currBit == line[col];
      if currBit == prevBit {
        // On the first cell this is an unset (255) cell matching the
        // initial `prevBit`: the count still becomes 1.
        if col == 0 {
          StartRun(line, col);
        } else {
          ExtendRun(line, col);
        }
        cellRunCount := cellRunCount + 1;
      } else {
        StartRun(line, col);
        if cellRunCount >= 5 {
          penalty := penalty + N1 + (cellRunCount - 5);
        }
        cellRunCount := 1;
        prevBit := currBit;
      }
      col := col + 1;
    }
    if cellRunCount >= 5 {
      penalty := penalty + N1 + (cellRunCount - 5);
    }
  }

  // ---------------------------------------------------------------------
  // Rule 2: 2x2 blocks of one colour

  /** The 2x2 window whose top-left cell is (col, row) holds one value. */
  ghost predicate UniformWindow(g: seq<seq<uint8>>, width: int, row: int, col: int)
    requires IsGrid(g, width, |g|)
    requires 0 <= row && row + 1 < |g| && 0 <= col && col + 1 < width
  {
    g[row][col] == g[row][col + 1] && g[row][col] == g[row + 1][col] && g[row][col] == g[row + 1][col + 1]
  }

  /** The number of uniform windows in row `row` among the first n columns. */
  ghost function RowWindows(g: seq<seq<uint8>>, width: int, row: int, n: int): (r: nat)
    requires IsGrid(g, width, |g|)
    requires 0 <= row && row + 1 < |g| && 0 <= n && n + 1 <= width
    ensures r <= n
  {
    if n == 0 then 0
    else RowWindows(g, width, row, n - 1) + (if UniformWindow(g, width, row, n - 1) then 1 else 0)
  }

  /** The number of uniform windows in the first m rows and n columns. */
  ghost function Windows(g: seq<seq<uint8>>, width: int, m: int, n: int): (r: nat)
    requires IsGrid(g, width, |g|)
    requires 0 <= m && (m > 0 ==> m + 1 <= |g| && 0 <= n && n + 1 <= width)
  {
    if m == 0 then 0 else Windows(g, width, m - 1, n) + RowWindows(g, width, m - 1, n)
  }

  /** Only a grid without uniform windows scores nothing. */
  lemma {:induction false} WindowsZero(g: seq<seq<uint8>>, width: int, m: int, n: int)
    requires IsGrid(g, width, |g|)
    requires 0 <= m && (m > 0 ==> m + 1 <= |g| && 0 <= n && n + 1 <= width)
    ensures Windows(g, width, m, n) == 0 <==>
      forall row, col :: 0 <= row < m && 0 <= col < n ==> !UniformWindow(g, width, row, col)
  {
    if m > 0 {
      WindowsZero(g, width, m - 1, n);
      RowWindowsZero(g, width, m - 1, n);
    }
  }

  lemma {:induction false} RowWindowsZero(g: seq<seq<uint8>>, width: int, row: int, n: int)
    requires IsGrid(g, width, |g|)
    requires 0 <= row && row + 1 < |g| && 0 <= n && n + 1 <= width
    ensures RowWindows(g, width, row, n) == 0 <==> forall col :: 0 <= col < n ==> !UniformWindow(g, width, row, col)
  {
    if n > 0 {
      RowWindowsZero(g, width, row, n - 1);
    }
  }

  /** `PenaltyRule2`: N2 times the number of uniform 2x2 windows. The row
      range `0..<height-1` traps on an empty grid. */
  method PenaltyRule2(matrix: ByteMatrix) returns (penalty: int)
    requires matrix.Valid() && 1 <= matrix.height && (2 <= matrix.height ==> 1 <= matrix.width)
    ensures penalty == N2 * Windows(matrix.bytes, matrix.width, matrix.height - 1, matrix.width - 1)
  {
    var rowCount := matrix.height - 1;
    var colCount := matrix.width - 1;
    var count := 0;
    var row := 0;
    while row < rowCount
      invariant 0 <= row <= rowCount
      invariant count == Windows(matrix.bytes, matrix.width, row, colCount)
    {
      var col := 0;
      while col < colCount
        invariant 0 <= col <= colCount
        invariant count == Windows(matrix.bytes, matrix.width, row, colCount) + RowWindows(matrix.bytes, matrix.width, row, col)
      {
        var currBit := matrix.Value(col, row);
        if currBit == matrix.Value(col + 1, row) && currBit == matrix.Value(col, row + 1) &&
           currBit == matrix.Value(col + 1, row + 1) {
          count := count + 1;
        }
        col := col + 1;
      }
      row := row + 1;
    }
    penalty := N2 * count;
  }

  // ---------------------------------------------------------------------
  // Rule 3: the 1:1:3:1:1 finder-like pattern

  /** `testBytes`: dark, light, three dark, light, dark. */
  const TestBytes: seq<uint8> := [1, 0, 1, 1, 1, 0, 1]

  function Max(a: int, b: int): int { if a >= b then a else b }
  function Min(a: int, b: int): int { if a <= b then a else b }

  /** `isValidRun(_:from:to:)`: no dark cell in the given range, clamped to
      the line. The slice traps when the clamped range is reversed. */
  function IsValidRun(bytes: seq<uint8>, lo: int, hi: int): (r: bool)
    requires Max(0, lo) <= Min(hi, |bytes|)
    ensures r <==> forall i :: Max(0, lo) <= i < Min(hi, |bytes|) ==> bytes[i] != 1
  {
    !(1 in bytes[Max(0, lo)..Min(hi, |bytes|)])
  }

  /** The pattern starts at `start` and has four light cells (clamped to the
      edge) before it or after it. */
  ghost predicate PatternAt(line: seq<uint8>, start: int)
  {
    0 <= start && start + 6 < |line| && line[start..start + 7] == TestBytes &&
    (IsValidRun(line, start - 4, start) || IsValidRun(line, start + 7, start + 11))
  }

  /** Matches counted at cell (col, row): the row pattern starting in that
      column and the column pattern starting in that row. */
  ghost function StartScore(g: seq<seq<uint8>>, width: int, row: int, col: int): nat
    requires IsGrid(g, width, |g|) && 0 <= row < |g| && 0 <= col < width
  {
    (if PatternAt(g[row], col) then 1 else 0) + (if PatternAt(Column(g, col), row) then 1 else 0)
  }

  /** Matches counted in the first n cells of row `row`. */
  ghost function RowStarts(g: seq<seq<uint8>>, width: int, row: int, n: int): nat
    requires IsGrid(g, width, |g|) && 0 <= row < |g| && 0 <= n <= width
  {
    if n == 0 then 0 else RowStarts(g, width, row, n - 1) + StartScore(g, width, row, n - 1)
  }

  /** Matches counted in the first m rows. */
  ghost function Starts(g: seq<seq<uint8>>, width: int, m: int): nat
    requires IsGrid(g, width, |g|) && 0 <= m <= |g| && (m > 0 ==> 0 <= width)
  {
    if m == 0 then 0 else Starts(g, width, m - 1) + RowStarts(g, width, m - 1, width)
  }

  /** A match starts with a dark cell. */
  lemma PatternHasDark(line: seq<uint8>, start: int)
    ensures PatternAt(line, start) ==> line[start] == 1
  {
    if PatternAt(line, start) {
      assert line[start..start + 7][0] == line[start];
    }
  }

  /** Every match holds a dark cell, so a grid without dark cells scores
      nothing. */
  lemma {:induction false} StartsWithoutDark(g: seq<seq<uint8>>, width: int, m: int)
    requires IsGrid(g, width, |g|) && 0 <= m <= |g| && (m > 0 ==> 0 <= width)
    requires forall y, x :: 0 <= y < |g| && 0 <= x < width ==> g[y][x] != 1
    ensures Starts(g, width, m) == 0
  {
    if m > 0 {
      StartsWithoutDark(g, width, m - 1);
      RowStartsWithoutDark(g, width, m - 1, width);
    }
  }

  lemma {:induction false} RowStartsWithoutDark(g: seq<seq<uint8>>, width: int, row: int, n: int)
    requires IsGrid(g, width, |g|) && 0 <= row < |g| && 0 <= n <= width
    requires forall y, x :: 0 <= y < |g| && 0 <= x < width ==> g[y][x] != 1
    ensures RowStarts(g, width, row, n) == 0
  {
    if n > 0 {
      RowStartsWithoutDark(g, width, row, n - 1);
      var col := n - 1;
      PatternHasDark(g[row], col);
      PatternHasDark(Column(g, col), row);
    }
  }

  /** `PenaltyRule3`: N3 times the number of matches along rows and
      columns. */
  method PenaltyRule3(matrix: ByteMatrix) returns (penalty: int)
    requires matrix.Valid()
    ensures penalty == N3 * Starts(matrix.bytes, matrix.width, matrix.height)
  {
    var rowCount := matrix.height;
    var colCount := matrix.width;
    var count := 0;
    var row := 0;
    while row < rowCount
      invariant 0 <= row <= rowCount
      invariant count == Starts(matrix.bytes, matrix.width, row)
    {
      var col := 0;
      while col < colCount
        invariant 0 <= col <= colCount
        invariant count == Starts(matrix.bytes, matrix.width, row) + RowStarts(matrix.bytes, matrix.width, row, col)
      {
        var score := StartMatches(matrix.bytes, matrix.width, row, col);
        count := count + score;
        col := col + 1;
      }
      row := row + 1;
    }
    penalty := N3 * count;
  }

  /** The two tests of the inner loop of `PenaltyRule3` at one cell. */
  method StartMatches(g: seq<seq<uint8>>, width: int, row: int, col: int) returns (score: int)
    requires IsGrid(g, width, |g|) && 0 <= row < |g| && 0 <= col < width
    ensures score == StartScore(g, width, row, col)
  {
    score := 0;
    if col + 6 < width {
      var rowBytes := g[row];
      if rowBytes[col..col + 7] == TestBytes &&
         (IsValidRun(rowBytes, col - 4, col) || IsValidRun(rowBytes, col + 7, col + 11)) {
        score := score + 1;
      }
    }
    if row + 6 < |g| {
      var colBytes := Column(g, col);
      if colBytes[row..row + 7] == TestBytes &&
         (IsValidRun(colBytes, row - 4, row) || IsValidRun(colBytes, row + 7, row + 11)) {
        score := score + 1;
      }
    }
  }

  // ---------------------------------------------------------------------
  // Rule 4: balance of dark and light cells

  /** The number of dark (1) cells of a row. */
  function CountDark(row: seq<uint8>): (r: nat)
    ensures r <= |row|
  {
    if row == [] then 0 else CountDark(row[..|row| - 1]) + (if row[|row| - 1] == 1 then 1 else 0)
  }

  /** The number of dark cells in the first m rows. */
  ghost function DarkCells(g: seq<seq<uint8>>, m: int): nat
    requires 0 <= m <= |g|
  {
    if m == 0 then 0 else DarkCells(g, m - 1) + CountDark(g[m - 1])
  }

  /** There are no more dark cells than cells. */
  lemma {:induction false} DarkCellsBound(g: seq<seq<uint8>>, width: int, m: int)
    requires IsGrid(g, width, |g|) && 0 <= width && 0 <= m <= |g|
    ensures DarkCells(g, m) <= width * m
  {
    if m > 0 {
      DarkCellsBound(g, width, m - 1);
      assert width * m == width * (m - 1) + width;
    }
  }

  lemma ProductCancel(d: int, q: int, k: int)
    requires 0 < d && d * q <= d * k
    ensures q <= k
  {
  }

  function Abs(v: int): int { if v < 0 then -v else v }

  /** The rule-4 penalty lies in [0, 100] and is 0 for an even split. */
  lemma Rule4Bounds(dark: int, total: int)
    requires 0 <= dark <= total && 0 < total
    ensures 0 <= N4 * (Abs(dark * 2 - total) * 10 / total) <= 100
    ensures dark * 2 == total ==> N4 * (Abs(dark * 2 - total) * 10 / total) == 0
  {
    var a := Abs(dark * 2 - total) * 10;
    assert 0 <= a <= total * 10;
    DivAtMost(a, total, 10);
  }

  lemma DivAtMost(a: int, d: int, k: int)
    requires 0 <= a <= d * k && 0 < d
    ensures 0 <= a / d <= k
  {
    assert d * (a / d) <= a;
    ProductCancel(d, a / d, k);
  }

  /** `PenaltyRule4`: `10 * (|2 dark - total| * 10 / total)`, where the
      division traps on an empty grid. */
  method PenaltyRule4(matrix: ByteMatrix) returns (penalty: int)
    requires matrix.Valid() && 0 < matrix.width && 0 < matrix.height
    ensures penalty == N4 * (Abs(DarkCells(matrix.bytes, matrix.height) * 2 - matrix.width * matrix.height) * 10 /
      (matrix.width * matrix.height))
    ensures 0 <= penalty <= 100
    ensures DarkCells(matrix.bytes, matrix.height) * 2 == matrix.width * matrix.height ==> penalty == 0
  {
    var totalCellCount := matrix.width * matrix.height;
    var darkCellCount := 0;
    var rows := matrix.bytes;
    var k := 0;
    while k < |rows|
      invariant 0 <= k <= |rows|
      invariant darkCellCount == DarkCells(rows, k)
    {
      var row := rows[k];
      var i := 0;
      ghost var before := darkCellCount;
      while i < |row|
        invariant 0 <= i <= |row|
        invariant darkCellCount == before + CountDark(row[..i])
      {
        assert row[..i + 1][..i] == row[..i];
        if row[i] == 1 {
          darkCellCount := darkCellCount + 1;
        }
        i := i + 1;
      }
      assert row[..i] == row;
      k := k + 1;
    }
    DarkCellsBound(rows, matrix.width, matrix.height);
    Rule4Bounds(darkCellCount, totalCellCount);
    penalty := N4 * (Abs(darkCellCount * 2 - totalCellCount) * 10 / totalCellCount);
  }
}
