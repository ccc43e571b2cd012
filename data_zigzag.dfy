/** The data placement `encodeData` (ZXMatrixUtils.swift) evidently
    intends, as ISO/IEC 18004:2006 section 7.7.3 lays it out: from the
    right edge, pairs of columns, the right cell of each row first, upward
    through the first pair, downward through the next, and so on, with the
    pair that would contain the vertical timing column moved one column
    left. The scan visits every cell outside the timing column exactly
    once, so every empty cell outside it takes a bit. */
module DataZigzag {
  import opened Errors
  import opened Bits
  import opened ByteMatrices
  import opened MatrixPatterns
  import opened MatrixInfo
  import opened MatrixData

  /** A matrix the placement applies to: an odd width of at least 7 (a QR
      symbol is 17 + 4 * version modules wide) and at least one row. */
  predicate ZigzagShape(width: int, height: int)
  {
    width >= 7 && width % 2 == 1 && height >= 1
  }

  /** The number of column pairs: (width - 1) / 2, the timing column left
      over. */
  function PairCount(width: int): nat
  {
    if width < 1 then 0 else (width - 1) / 2
  }

  /** The right column of pair j: width - 1 - 2j, one further left once it
      has reached the timing column. */
  function PairColumn(width: int, j: int): int
  {
    if width - 1 - 2 * j <= TimingIndex then width - 2 - 2 * j else width - 1 - 2 * j
  }

  /** The row of step k of pass j: passes 0, 2, 4, ... go upward from the
      bottom row, the others downward from the top. */
  function PassRow(height: int, j: int, k: int): int
  {
    if j % 2 == 0 then height - 1 - k else k
  }

  /** Cell i of the scan: pass i / (2 height), step (i % (2 height)) / 2 of
      it, and the left cell of the pair when i is odd. */
  function ZigzagCell(width: int, height: int, i: int): (int, int)
    requires height > 0
  {
    var j, t := i / (2 * height), i % (2 * height);
    (PairColumn(width, j) - t % 2, PassRow(height, j, t / 2))
  }

  /** Every cell the intended scan visits, in order. */
  function ZigzagCells(width: int, height: int): (cells: seq<(int, int)>)
    ensures |cells| == if height > 0 then 2 * height * PairCount(width) else 0
  {
    if height <= 0 then [] else seq(2 * height * PairCount(width), i requires 0 <= i => ZigzagCell(width, height, i))
  }

  /** The position of cell (x, y) in the scan. */
  function ZigzagIndex(width: int, height: int, x: int, y: int): int
  {
    var d := if x > TimingIndex then width - 1 - x else width - 2 - x;
    var j := d / 2;
    j * (2 * height) + 2 * (if j % 2 == 0 then height - 1 - y else y) + d % 2
  }

  lemma DivModParts(i: int, d: int)
    requires d > 0
    ensures i == (i / d) * d + i % d && 0 <= i % d < d
  {
  }

  lemma MulBelow(j: int, p: int, d: int)
    requires 0 <= j < p && d > 0
    ensures j * d + d <= p * d
  {
    MulMonotone(j + 1, p, d);
    assert (j + 1) * d == j * d + d;
  }

  /** From a cell of the scan back to its position: the cells lie in the
      matrix, outside the timing column, and `ZigzagIndex` undoes
      `ZigzagCell`. */
  lemma CellIndex(width: int, height: int, i: int)
    requires ZigzagShape(width, height) && 0 <= i < |ZigzagCells(width, height)|
    ensures var c := ZigzagCell(width, height, i);
      && 0 <= c.0 < width && c.0 != TimingIndex && 0 <= c.1 < height
      && ZigzagIndex(width, height, c.0, c.1) == i
  {
    var h2 := 2 * height;
    var j, t := i / h2, i % h2;
    DivModParts(i, h2);
    var k, left := t / 2, t % 2;
    assert i < PairCount(width) * h2;
    QuotientBelow(i, h2, PairCount(width));
    var c := ZigzagCell(width, height, i);
    assert c == (PairColumn(width, j) - left, PassRow(height, j, k));
    PairColumnRange(width, j, left);
    var d := if c.0 > TimingIndex then width - 1 - c.0 else width - 2 - c.0;
    assert d == 2 * j + left;
    DivModUnique(d, 2, j, left);
    assert 2 * (if j % 2 == 0 then height - 1 - c.1 else c.1) + d % 2 == t;
  }

  /** The cells of pair j lie in the matrix, on the side of the timing
      column the pair is on. */
  lemma PairColumnRange(width: int, j: int, left: int)
    requires width >= 7 && width % 2 == 1 && 0 <= j < PairCount(width) && 0 <= left <= 1
    ensures 0 <= PairColumn(width, j) - left < width
    ensures width - 1 - 2 * j > TimingIndex ==> PairColumn(width, j) - left > TimingIndex
    ensures width - 1 - 2 * j <= TimingIndex ==> PairColumn(width, j) - left < TimingIndex
  {
    var m := (width - 1) / 2;
    assert width - 1 - 2 * j == 2 * (m - j) && m - j >= 1;
  }

  /** From a cell outside the timing column to its position and back. */
  lemma IndexCell(width: int, height: int, x: int, y: int)
    requires ZigzagShape(width, height) && 0 <= x < width && x != TimingIndex && 0 <= y < height
    ensures 0 <= ZigzagIndex(width, height, x, y) < |ZigzagCells(width, height)|
    ensures ZigzagCell(width, height, ZigzagIndex(width, height, x, y)) == (x, y)
  {
    var h2 := 2 * height;
    var d := if x > TimingIndex then width - 1 - x else width - 2 - x;
    var j, left := d / 2, d % 2;
    var k := if j % 2 == 0 then height - 1 - y else y;
    var t := 2 * k + left;
    var i := ZigzagIndex(width, height, x, y);
    assert i == j * h2 + t;
    DivModUnique(i, h2, j, t);
    DivModUnique(t, 2, k, left);
    assert j < PairCount(width);
    MulBelow(j, PairCount(width), h2);
    assert PairColumn(width, j) - left == x;
  }

  /** The scan visits distinct cells, all inside the matrix. */
  lemma ZigzagCellsDistinct(width: int, height: int)
    requires ZigzagShape(width, height)
    ensures InMatrix(ZigzagCells(width, height), width, height)
    ensures Distinct(ZigzagCells(width, height))
  {
    var cells := ZigzagCells(width, height);
    forall i | 0 <= i < |cells|
      ensures 0 <= cells[i].0 < width && 0 <= cells[i].1 < height
      ensures ZigzagIndex(width, height, cells[i].0, cells[i].1) == i
    {
      CellIndex(width, height, i);
    }
  }

  /** The scan visits every cell outside the timing column. */
  lemma ZigzagCellsCover(width: int, height: int, x: int, y: int)
    requires ZigzagShape(width, height) && 0 <= x < width && x != TimingIndex && 0 <= y < height
    ensures (x, y) in ZigzagCells(width, height)
  {
    IndexCell(width, height, x, y);
    assert ZigzagCells(width, height)[ZigzagIndex(width, height, x, y)] == (x, y);
  }

  /** The intended `encodeData`: the fill over the zigzag scan, then
      `Unspecified` if stream bits remain. */
  function IntendedPlacement(g: seq<seq<uint8>>, data: seq<bool>, maskPattern: int, width: int, height: int): (r: Fill)
    ensures r.halted.Some?
  {
    Finish(FillCells(Fill(g, 0, None), data, maskPattern, ZigzagCells(width, height)), data)
  }

  /** On a grid of a QR shape under a valid mask, the intended placement
      never leaves the matrix; the empty cells take the stream bits in scan
      order (`FillResult`); it completes exactly when there are enough empty
      cells for the stream; afterwards no cell outside the timing column is
      empty, and every cell that was set still holds its value. */
  lemma IntendedPlacementFills(g: seq<seq<uint8>>, data: seq<bool>, maskPattern: int, width: int, height: int)
    requires IsGrid(g, width, height) && ZigzagShape(width, height) && 0 <= maskPattern < 8
    ensures InMatrix(ZigzagCells(width, height), width, height)
    ensures FillResult(g, data, maskPattern, width, height, ZigzagCells(width, height))
    ensures IntendedPlacement(g, data, maskPattern, width, height).halted ==
      Some(if |data| <= EmptyCount(g, ZigzagCells(width, height)) then Completed else Failed(Unspecified))
    ensures var r := IntendedPlacement(g, data, maskPattern, width, height);
      && IsGrid(r.grid, width, height)
      && (forall x, y :: 0 <= x < width && 0 <= y < height && x != TimingIndex ==> r.grid[y][x] != InvalidByteValue)
      && (forall x, y :: 0 <= x < width && 0 <= y < height && g[y][x] != InvalidByteValue ==> r.grid[y][x] == g[y][x])
  {
    var cells := ZigzagCells(width, height);
    ZigzagCellsDistinct(width, height);
    FillInMatrix(g, data, maskPattern, width, height, cells);
    var r := IntendedPlacement(g, data, maskPattern, width, height);
    forall x, y | 0 <= x < width && 0 <= y < height
      ensures x != TimingIndex ==> r.grid[y][x] != InvalidByteValue
      ensures g[y][x] != InvalidByteValue ==> r.grid[y][x] == g[y][x]
    {
      if x != TimingIndex {
        IndexCell(width, height, x, y);
        var i := ZigzagIndex(width, height, x, y);
        assert cells[i] == (x, y);
        assert r.grid[y][x] == FilledValue(g, data, maskPattern, cells, i);
      }
    }
  }
}
