/** ZXMatrixUtils.swift, `encodeData`: the data bits, masked, into the cells
    no pattern has claimed. The scan is modelled as the list of cells it
    visits and a fold of one cell visit over that list.

    As written, the scan starts at column `width - 1` and visits the pair
    `colIdx ... colIdx + 1`, so its second cell lies in column `width`,
    outside the matrix, unless the first column is the timing column 6
    (width 7). And `rowIdx` is never brought back into range after the
    first upward pass, so only the first column pair is ever visited. */
module MatrixData {
  import opened Errors
  import opened ByteMatrices
  import opened MatrixPatterns
  import MaskUtils
  import BitMatrices
  import opened MatrixInfo

  /** The state of the scan: the grid, the number of stream bits read, and
      how the scan stopped, if it has (a thrown error or a trap). */
  datatype Fill = Fill(grid: seq<seq<uint8>>, consumed: nat, halted: Option<Outcome>)

  /** The stream bit at index k, or false once the stream is exhausted. */
  function StreamBit(data: seq<bool>, k: nat): bool
  {
    k < |data| && data[k]
  }

  /** One visit of cell (column c, row r): a cell outside the grid traps, a
      set cell is skipped; an empty cell takes the next stream bit (false
      once the stream is exhausted), inverted where the mask bit is set,
      and an invalid mask throws. A stopped scan stays stopped. */
  function FillCell(s: Fill, data: seq<bool>, maskPattern: int, c: int, r: int): (t: Fill)
    ensures s.halted.Some? ==> t == s
  {
    if s.halted.Some? then s
    else if !(0 <= r < |s.grid| && 0 <= c < |s.grid[r]|) then s.(halted := Some(Trapped))
    else if s.grid[r][c] != InvalidByteValue then s
    else
      var bit := StreamBit(data, s.consumed);
      var consumed := if s.consumed < |data| then s.consumed + 1 else s.consumed;
      match MaskUtils.DataMaskBit(maskPattern, c, r)
      case Err(e) => Fill(s.grid, consumed, Some(Failed(e)))
      case Ok(maskBit) => Fill(s.grid[r := s.grid[r][c := BitByte(bit != maskBit)]], consumed, None)
  }

  /** The visits of the cells, in order. */
  function FillCells(s: Fill, data: seq<bool>, maskPattern: int, cells: seq<(int, int)>): (t: Fill)
    decreases |cells|
  {
    if cells == [] then s
    else
      var last := cells[|cells| - 1];
      FillCell(FillCells(s, data, maskPattern, cells[..|cells| - 1]), data, maskPattern, last.0, last.1)
  }

  lemma FillCellsSnoc(s: Fill, data: seq<bool>, maskPattern: int, cells: seq<(int, int)>, c: int, r: int)
    ensures FillCells(s, data, maskPattern, cells + [(c, r)]) ==
      FillCell(FillCells(s, data, maskPattern, cells), data, maskPattern, c, r)
  {
    assert (cells + [(c, r)])[..|cells|] == cells;
  }

  /** Once the scan has stopped, later visits change nothing. */
  lemma {:induction false} FillCellsHalted(s: Fill, data: seq<bool>, maskPattern: int, cells: seq<(int, int)>, rest: seq<(int, int)>)
    requires FillCells(s, data, maskPattern, cells).halted.Some?
    ensures FillCells(s, data, maskPattern, cells + rest) == FillCells(s, data, maskPattern, cells)
    decreases |rest|
  {
    if rest == [] {
      assert cells + rest == cells;
    } else {
      var front := rest[..|rest| - 1];
      var last := rest[|rest| - 1];
      FillCellsHalted(s, data, maskPattern, cells, front);
      assert cells + rest == (cells + front) + [last];
      FillCellsSnoc(s, data, maskPattern, cells + front, last.0, last.1);
    }
  }

  // ---------------------------------------------------------------------
  // The cells the scan visits

  /** The column of the first pass: `width - 1`, moved left past the timing
      column when it is 6. */
  function FirstColumn(width: int): int
  {
    if width - 1 == TimingIndex then width - 2 else width - 1
  }

  /** The first k rows of an upward pass over the pair of columns c and
      c + 1 starting at row height - 1: both cells of each row, left one
      first. */
  function UpwardPass(c: int, height: int, k: nat): (cells: seq<(int, int)>)
    ensures |cells| == 2 * k
  {
    if k == 0 then [] else UpwardPass(c, height, k - 1) + [(c, height - k), (c + 1, height - k)]
  }

  /** Every cell `encodeData` visits, in order: one upward pass over the
      first column pair, and nothing after it. */
  function ScanCells(width: int, height: int): seq<(int, int)>
  {
    if width <= 0 || height <= 0 then [] else UpwardPass(FirstColumn(width), height, height)
  }

  /** The end of `encodeData`: a scan that has not stopped throws
      `Unspecified` if stream bits remain and completes otherwise. */
  function Finish(s: Fill, data: seq<bool>): (r: Fill)
    ensures r.halted.Some? && r.grid == s.grid && r.consumed == s.consumed
  {
    if s.halted.Some? then s
    else if s.consumed != |data| then s.(halted := Some(Failed(Unspecified)))
    else s.(halted := Some(Completed))
  }

  /** `encodeData(data:maskPattern:)` as a function of the grid: the fill
      over the visited cells, then `Unspecified` if stream bits remain. */
  function DataPlacement(g: seq<seq<uint8>>, data: seq<bool>, maskPattern: int, width: int, height: int): (r: Fill)
    ensures r.halted.Some?
  {
    Finish(FillCells(Fill(g, 0, None), data, maskPattern, ScanCells(width, height)), data)
  }

  /** `encodeData(data:maskPattern:)` with its two nested scans, skipping the
      timing column, and the final check that every stream bit was used.
      An access outside the matrix, which traps in Swift, ends the method
      with `Trapped`. */
  method EncodeData(m: ByteMatrix, data: BitMatrices.BitMatrix, maskPattern: int) returns (outcome: Outcome)
    requires m.Valid() && data.Valid()
    modifies m
    ensures m.Valid()
    ensures var r := DataPlacement(old(m.bytes), data.bits, maskPattern, m.width, m.height);
      outcome == r.halted.value && m.bytes == r.grid
  {
    ghost var g := m.bytes;
    ghost var init := Fill(g, 0, None);
    var colIdx := m.width - 1;
    var rowIdx := m.height - 1;
    var scanDirection := true;
    var dataBitCount := data.Size();
    var dataBitIndex := 0;
    ghost var visited: seq<(int, int)> := [];
    ghost var firstPass := true;
    while 0 <= colIdx < m.width
      invariant m.Valid() && dataBitCount == |data.bits| && 0 <= dataBitIndex <= dataBitCount
      invariant firstPass ==> colIdx == m.width - 1 && rowIdx == m.height - 1 && scanDirection && visited == []
      invariant !firstPass ==> rowIdx == -1 && visited == ScanCells(m.width, m.height)
      invariant FillCells(init, data.bits, maskPattern, visited) == Fill(m.bytes, dataBitIndex, None)
      decreases colIdx
    {
      if colIdx == TimingIndex {
        colIdx := colIdx - 1;
      }
      var halt;
      rowIdx, dataBitIndex, halt, visited :=
        ScanRows(m, data, maskPattern, colIdx, rowIdx, scanDirection, dataBitIndex, init, visited, firstPass);
      if halt.Some? {
        return halt.value;
      }
      firstPass := false;
      scanDirection := !scanDirection;
      colIdx := colIdx - 2;
    }
    assert visited == ScanCells(m.width, m.height);
    if dataBitIndex != dataBitCount {
      return Failed(Unspecified);
    }
    return Completed;
  }

  /** The inner `while` loop of `encodeData` over the rows of the pair of
      columns colIdx and colIdx + 1, in the scan direction. Only the first
      pass visits any cell: `rowIdx` is never reset, so later passes find
      it already outside the matrix. A visit that halts ends the scan, as
      the halted fold over the whole scan says. */
  method ScanRows(m: ByteMatrix, data: BitMatrices.BitMatrix, maskPattern: int, colIdx: int, rowIdx: int,
                  scanDirection: bool, dataBitIndex: nat, ghost init: Fill, ghost visited: seq<(int, int)>,
                  ghost firstPass: bool)
    returns (newRow: int, newIndex: nat, halt: Option<Outcome>, ghost done: seq<(int, int)>)
    requires m.Valid() && data.Valid() && dataBitIndex <= |data.bits| && 0 <= colIdx < m.width
    requires firstPass ==> scanDirection && colIdx == FirstColumn(m.width) && rowIdx == m.height - 1 && visited == []
    requires !firstPass ==> rowIdx == -1 && visited == ScanCells(m.width, m.height)
    requires FillCells(init, data.bits, maskPattern, visited) == Fill(m.bytes, dataBitIndex, None)
    modifies m
    ensures m.Valid() && newIndex <= |data.bits|
    ensures halt.None? ==>
      newRow == -1 && done == ScanCells(m.width, m.height) && FillCells(init, data.bits, maskPattern, done) == Fill(m.bytes, newIndex, None)
    ensures halt.Some? ==> FillCells(init, data.bits, maskPattern, ScanCells(m.width, m.height)) == Fill(m.bytes, newIndex, halt)
  {
    newRow, newIndex, done := rowIdx, dataBitIndex, visited;
    while 0 <= newRow < m.height
      invariant m.Valid() && newIndex <= |data.bits|
      invariant firstPass ==> scanDirection && colIdx == FirstColumn(m.width) && -1 <= newRow < m.height && done == UpwardPass(colIdx, m.height, m.height - 1 - newRow)
      invariant !firstPass ==> newRow == -1 && done == ScanCells(m.width, m.height)
      invariant FillCells(init, data.bits, maskPattern, done) == Fill(m.bytes, newIndex, None)
      decreases if scanDirection then newRow + 1 else m.height - newRow
    {
      newIndex, halt := VisitPair(m, data, maskPattern, colIdx, newRow, newIndex, init, done);
      done := done + [(colIdx, newRow), (colIdx + 1, newRow)];
      assert done == UpwardPass(colIdx, m.height, m.height - newRow);
      if halt.Some? {
        ScanPrefix(m.width, m.height, colIdx, newRow, done);
        FillCellsHalted(init, data.bits, maskPattern, done, ScanCells(m.width, m.height)[|done|..]);
        return;
      }
      newRow := newRow + (if scanDirection then -1 else 1);
    }
    if firstPass {
      ScanIsFirstPass(m.width, m.height, colIdx);
    }
    halt := None;
  }

  /** The cells visited up to row r form a prefix of the scan. */
  lemma ScanPrefix(width: int, height: int, c: int, r: int, prefix: seq<(int, int)>)
    requires width >= 1 && c == FirstColumn(width) && 0 <= r < height && prefix == UpwardPass(c, height, height - r)
    ensures |prefix| <= |ScanCells(width, height)| && ScanCells(width, height) == prefix + ScanCells(width, height)[|prefix|..]
  {
    UpwardPassPrefix(c, height, height - r, height);
  }

  /** In a matrix at least one column wide, the scan is the full upward
      pass over the first column pair. */
  lemma ScanIsFirstPass(width: int, height: int, c: int)
    requires width >= 1 && c == FirstColumn(width) && height >= 0
    ensures ScanCells(width, height) == UpwardPass(c, height, height)
  {
  }

  /** A shorter pass is a prefix of a longer one. */
  lemma {:induction false} UpwardPassPrefix(c: int, height: int, k: nat, n: nat)
    requires k <= n
    ensures UpwardPass(c, height, n)[..2 * k] == UpwardPass(c, height, k)
    decreases n
  {
    if k < n {
      UpwardPassPrefix(c, height, k, n - 1);
      assert UpwardPass(c, height, n)[..2 * (n - 1)] == UpwardPass(c, height, n - 1);
    }
  }

  /** The inner `for` loop over the pair of cells (colIdx, rowIdx) and
      (colIdx + 1, rowIdx). Once a visit halts, the rest of the pair is
      not visited, which is what the halted fold says too. */
  method VisitPair(m: ByteMatrix, data: BitMatrices.BitMatrix, maskPattern: int, colIdx: int, rowIdx: int,
                   dataBitIndex: nat, ghost init: Fill, ghost visited: seq<(int, int)>)
    returns (newIndex: nat, halt: Option<Outcome>)
    requires m.Valid() && data.Valid() && 0 <= rowIdx < m.height && dataBitIndex <= |data.bits|
    requires FillCells(init, data.bits, maskPattern, visited) == Fill(m.bytes, dataBitIndex, None)
    modifies m
    ensures m.Valid() && newIndex <= |data.bits|
    ensures FillCells(init, data.bits, maskPattern, visited + [(colIdx, rowIdx), (colIdx + 1, rowIdx)]) ==
      Fill(m.bytes, newIndex, halt)
  {
    ghost var first, second := (colIdx, rowIdx), (colIdx + 1, rowIdx);
    SnocPair(visited, first, second);
    newIndex := dataBitIndex;
    ghost var done := visited;
    for c := colIdx to colIdx + 2
      invariant m.Valid() && newIndex <= |data.bits|
      invariant c == colIdx ==> done == visited
      invariant c == colIdx + 1 ==> done == visited + [first]
      invariant c == colIdx + 2 ==> done == visited + [first, second]
      invariant FillCells(init, data.bits, maskPattern, done) == Fill(m.bytes, newIndex, None)
    {
      newIndex, halt := VisitCell(m, data, maskPattern, c, rowIdx, newIndex, FillCells(init, data.bits, maskPattern, done));
      FillCellsSnoc(init, data.bits, maskPattern, done, c, rowIdx);
      done := done + [(c, rowIdx)];
      if halt.Some? {
        if c == colIdx {
          FillCellsSnoc(init, data.bits, maskPattern, done, second.0, second.1);
        }
        return;
      }
    }
    halt := None;
  }

  lemma SnocPair<T>(s: seq<T>, a: T, b: T)
    ensures (s + [a]) + [b] == s + [a, b]
  {
  }

  /** The body of the innermost loop for cell (c, r): `isEmpty` (which traps
      outside the matrix), the next stream bit, the mask and `setValue`. */
  method VisitCell(m: ByteMatrix, data: BitMatrices.BitMatrix, maskPattern: int, c: int, r: int, dataBitIndex: nat,
                   ghost s: Fill)
    returns (newIndex: nat, halt: Option<Outcome>)
    requires m.Valid() && data.Valid() && 0 <= r < m.height && dataBitIndex <= |data.bits|
    requires s == Fill(m.bytes, dataBitIndex, None)
    modifies m
    ensures m.Valid() && newIndex <= |data.bits|
    ensures FillCell(s, data.bits, maskPattern, c, r) == Fill(m.bytes, newIndex, halt)
  {
    if !(0 <= c < m.width) {
      return dataBitIndex, Some(Trapped);
    }
    if !m.IsEmpty(c, r) {
      return dataBitIndex, None;
    }
    var dataBit: bool;
    newIndex := dataBitIndex;
    if newIndex < data.Size() {
      dataBit := data.ValueAtIndex(newIndex);
      newIndex := newIndex + 1;
    } else {
      dataBit := false;
    }
    var maskBit := MaskUtils.DataMaskBit(maskPattern, c, r);
    if maskBit.Err? {
      return newIndex, Some(Failed(maskBit.error));
    }
    if maskBit.value {
      dataBit := !dataBit;
    }
    m.SetBool(dataBit, c, r);
    halt := None;
  }

  // ---------------------------------------------------------------------
  // What the scan does

  /** Cell (column c.0, row c.1) is inside g and empty. */
  predicate IsEmptyCell(g: seq<seq<uint8>>, c: (int, int))
  {
    0 <= c.1 < |g| && 0 <= c.0 < |g[c.1]| && g[c.1][c.0] == InvalidByteValue
  }

  /** The number of the cells that are empty in g. */
  function EmptyCount(g: seq<seq<uint8>>, cells: seq<(int, int)>): (n: nat)
    ensures n <= |cells|
  {
    if cells == [] then 0
    else EmptyCount(g, cells[..|cells| - 1]) + (if IsEmptyCell(g, cells[|cells| - 1]) then 1 else 0)
  }

  /** Every cell lies inside a width x height matrix. */
  predicate InMatrix(cells: seq<(int, int)>, width: int, height: int)
  {
    forall i :: 0 <= i < |cells| ==> 0 <= cells[i].0 < width && 0 <= cells[i].1 < height
  }

  /** No cell is listed twice. */
  predicate Distinct(cells: seq<(int, int)>)
  {
    forall i, j :: 0 <= i < j < |cells| ==> cells[i] != cells[j]
  }

  /** What cell i of the scan holds afterwards under a valid mask: if it was
      empty, the stream bit whose index is the number of empty cells before
      it (false once the stream is exhausted), inverted where the mask bit is
      set; otherwise what it held. */
  function FilledValue(g: seq<seq<uint8>>, data: seq<bool>, maskPattern: int, cells: seq<(int, int)>, i: nat): uint8
    requires 0 <= maskPattern < 8 && i < |cells| && 0 <= cells[i].1 < |g| && 0 <= cells[i].0 < |g[cells[i].1]|
  {
    if IsEmptyCell(g, cells[i]) then
      BitByte(StreamBit(data, EmptyCount(g, cells[..i])) != MaskUtils.DataMaskBit(maskPattern, cells[i].0, cells[i].1).value)
    else g[cells[i].1][cells[i].0]
  }

  /** What the scan over distinct cells inside the matrix leaves behind
      under a valid mask: it has not stopped; it has read one stream bit per
      empty cell until the stream ran out; every listed cell holds its
      `FilledValue`; and no other cell has changed. */
  ghost predicate FillResult(g: seq<seq<uint8>>, data: seq<bool>, maskPattern: int, width: int, height: int,
                             cells: seq<(int, int)>)
    requires IsGrid(g, width, height) && 0 <= maskPattern < 8 && InMatrix(cells, width, height)
  {
    var t := FillCells(Fill(g, 0, None), data, maskPattern, cells);
    && t.halted.None? && IsGrid(t.grid, width, height)
    && t.consumed == (if |data| <= EmptyCount(g, cells) then |data| else EmptyCount(g, cells))
    && (forall i :: 0 <= i < |cells| ==> t.grid[cells[i].1][cells[i].0] == FilledValue(g, data, maskPattern, cells, i))
    && (forall x, y :: 0 <= x < width && 0 <= y < height && (x, y) !in cells ==> t.grid[y][x] == g[y][x])
  }

  /** Over distinct cells inside the matrix, with a valid mask, the scan
      leaves `FillResult` behind: the empty cells take the stream in order. */
  lemma {:induction false} FillInMatrix(g: seq<seq<uint8>>, data: seq<bool>, maskPattern: int, width: int, height: int,
                                        cells: seq<(int, int)>)
    requires IsGrid(g, width, height) && 0 <= maskPattern < 8 && InMatrix(cells, width, height) && Distinct(cells)
    ensures FillResult(g, data, maskPattern, width, height, cells)
    decreases |cells|
  {
    if cells != [] {
      var front, last := cells[..|cells| - 1], cells[|cells| - 1];
      assert InMatrix(front, width, height) && Distinct(front);
      FillInMatrix(g, data, maskPattern, width, height, front);
      assert cells == front + [last];
      FillStep(g, data, maskPattern, width, height, front, last);
    }
  }

  /** The induction step of `FillInMatrix`: one more cell, not visited before. */
  lemma FillStep(g: seq<seq<uint8>>, data: seq<bool>, maskPattern: int, width: int, height: int,
                 front: seq<(int, int)>, last: (int, int))
    requires IsGrid(g, width, height) && 0 <= maskPattern < 8
    requires InMatrix(front, width, height) && InMatrix(front + [last], width, height) && Distinct(front + [last])
    requires FillResult(g, data, maskPattern, width, height, front)
    ensures FillResult(g, data, maskPattern, width, height, front + [last])
  {
    var cells := front + [last];
    var s := FillCells(Fill(g, 0, None), data, maskPattern, front);
    FillCellsSnoc(Fill(g, 0, None), data, maskPattern, front, last.0, last.1);
    var t := FillCell(s, data, maskPattern, last.0, last.1);
    assert cells[..|front|] == front;
    assert cells[|front|] == last;
    assert 0 <= last.0 < width && 0 <= last.1 < height;
    assert last !in front by {
      forall i | 0 <= i < |front| ensures front[i] != last {
        assert cells[i] == front[i];
      }
    }
    assert s.grid[last.1][last.0] == g[last.1][last.0];
    FillCellEffect(s, data, maskPattern, width, height, last.0, last.1);
    assert EmptyCount(g, cells) == EmptyCount(g, front) + (if IsEmptyCell(g, last) then 1 else 0);
    forall i | 0 <= i < |front|
      ensures t.grid[cells[i].1][cells[i].0] == FilledValue(g, data, maskPattern, cells, i)
    {
      FilledValueSnoc(g, data, maskPattern, front, last, i);
    }
    assert t.grid[last.1][last.0] == FilledValue(g, data, maskPattern, cells, |front|);
  }

  /** One visit of an in-matrix cell by a scan that has not stopped: it
      stays running; an empty cell takes the next stream bit under the mask
      and counts it while the stream lasts; a set cell is left alone; no
      other cell changes. */
  lemma FillCellEffect(s: Fill, data: seq<bool>, maskPattern: int, width: int, height: int, c: int, r: int)
    requires s.halted.None? && IsGrid(s.grid, width, height) && 0 <= maskPattern < 8
    requires 0 <= c < width && 0 <= r < height
    ensures var t := FillCell(s, data, maskPattern, c, r);
      var empty := s.grid[r][c] == InvalidByteValue;
      && t.halted.None? && IsGrid(t.grid, width, height)
      && t.consumed == (if empty && s.consumed < |data| then s.consumed + 1 else s.consumed)
      && t.grid[r][c] == (if empty then BitByte(StreamBit(data, s.consumed) != MaskUtils.DataMaskBit(maskPattern, c, r).value)
                          else s.grid[r][c])
      && forall x, y :: 0 <= x < width && 0 <= y < height && (x, y) != (c, r) ==> t.grid[y][x] == s.grid[y][x]
  {
  }

  /** A cell of the front keeps its `FilledValue` when a cell is appended. */
  lemma FilledValueSnoc(g: seq<seq<uint8>>, data: seq<bool>, maskPattern: int, front: seq<(int, int)>, last: (int, int), i: nat)
    requires 0 <= maskPattern < 8 && i < |front| && 0 <= front[i].1 < |g| && 0 <= front[i].0 < |g[front[i].1]|
    ensures FilledValue(g, data, maskPattern, front + [last], i) == FilledValue(g, data, maskPattern, front, i)
  {
    assert (front + [last])[i] == front[i] && (front + [last])[..i] == front[..i];
  }

  /** Row i of an upward pass is row height - 1 - i: its cells 2i and 2i + 1
      are the left and right cells of that row. */
  lemma {:induction false} UpwardPassAt(c: int, height: int, k: nat, i: nat)
    requires i < k
    ensures UpwardPass(c, height, k)[2 * i] == (c, height - 1 - i)
    ensures UpwardPass(c, height, k)[2 * i + 1] == (c + 1, height - 1 - i)
  {
    if i < k - 1 {
      UpwardPassAt(c, height, k - 1, i);
    }
  }

  /** A full upward pass over columns c and c + 1 visits distinct cells, all
      inside a matrix wider than c + 1. */
  lemma UpwardPassCells(c: int, width: int, height: nat)
    requires 0 <= c && c + 1 < width
    ensures InMatrix(UpwardPass(c, height, height), width, height) && Distinct(UpwardPass(c, height, height))
  {
    var cells := UpwardPass(c, height, height);
    forall i | 0 <= i < |cells|
      ensures cells[i] == (c + i % 2, height - 1 - i / 2)
    {
      UpwardPassAt(c, height, height, i / 2);
    }
  }

  /** `encodeData` on any matrix whose width is not 7: the scan starts at
      column width - 1 and its second cell, in column width, is outside the
      matrix. Unless the first cell is empty and the mask invalid, which
      throws IllegalArgument, the method traps there; at most that first
      cell has been written. */
  lemma EncodeDataTraps(g: seq<seq<uint8>>, data: seq<bool>, maskPattern: int, width: int, height: int)
    requires IsGrid(g, width, height) && width >= 1 && height >= 1 && width != TimingIndex + 1
    ensures var r := DataPlacement(g, data, maskPattern, width, height);
      && r.halted == Some(if 0 <= maskPattern < 8 || g[height - 1][width - 1] != InvalidByteValue then Trapped
                          else Failed(IllegalArgument))
      && r.consumed <= 1 && |r.grid| == height
      && forall x, y :: 0 <= x < width && 0 <= y < height && (x, y) != (width - 1, height - 1) ==>
           |r.grid[y]| == width && r.grid[y][x] == g[y][x]
  {
    var init := Fill(g, 0, None);
    var cells := ScanCells(width, height);
    var first, second := (width - 1, height - 1), (width, height - 1);
    UpwardPassPrefix(width - 1, height, 1, height);
    assert cells[..2] == [first, second];
    assert cells == [first, second] + cells[2..];
    FillCellsSnoc(init, data, maskPattern, [], first.0, first.1);
    FillCellsSnoc(init, data, maskPattern, [first], second.0, second.1);
    assert [first] + [second] == [first, second];
    var s1 := FillCell(init, data, maskPattern, first.0, first.1);
    FirstVisit(g, data, maskPattern, width, height);
    assert FillCells(init, data, maskPattern, [first, second]) ==
      if s1.halted.Some? then s1 else s1.(halted := Some(Trapped));
    FillCellsHalted(init, data, maskPattern, [first, second], cells[2..]);
    assert DataPlacement(g, data, maskPattern, width, height) == FillCells(init, data, maskPattern, [first, second]);
  }

  /** The first visit of the scan, at the bottom right cell: it fills that
      cell if it is empty, throwing IllegalArgument there under an invalid
      mask, and changes nothing else. */
  lemma FirstVisit(g: seq<seq<uint8>>, data: seq<bool>, maskPattern: int, width: int, height: int)
    requires IsGrid(g, width, height) && width >= 1 && height >= 1
    ensures var s := FillCell(Fill(g, 0, None), data, maskPattern, width - 1, height - 1);
      && s.halted == (if 0 <= maskPattern < 8 || g[height - 1][width - 1] != InvalidByteValue then None
                      else Some(Failed(IllegalArgument)))
      && s.consumed <= 1 && IsGrid(s.grid, width, height)
      && forall x, y :: 0 <= x < width && 0 <= y < height && (x, y) != (width - 1, height - 1) ==> s.grid[y][x] == g[y][x]
  {
  }

  /** `encodeData` on a matrix 7 modules wide, with a valid mask: the scan is
      the one upward pass over columns 5 and 6, it never traps, and it
      completes exactly when the pass has an empty cell for every stream bit,
      throwing Unspecified otherwise. */
  lemma EncodeDataWidthSeven(g: seq<seq<uint8>>, data: seq<bool>, maskPattern: int, height: int)
    requires IsGrid(g, TimingIndex + 1, height) && height >= 1 && 0 <= maskPattern < 8
    ensures ScanCells(TimingIndex + 1, height) == UpwardPass(TimingIndex - 1, height, height)
    ensures InMatrix(ScanCells(TimingIndex + 1, height), TimingIndex + 1, height)
    ensures Distinct(ScanCells(TimingIndex + 1, height))
    ensures FillResult(g, data, maskPattern, TimingIndex + 1, height, ScanCells(TimingIndex + 1, height))
    ensures DataPlacement(g, data, maskPattern, TimingIndex + 1, height).halted ==
      Some(if |data| <= EmptyCount(g, ScanCells(TimingIndex + 1, height)) then Completed else Failed(Unspecified))
  {
    UpwardPassCells(TimingIndex - 1, TimingIndex + 1, height);
    FillInMatrix(g, data, maskPattern, TimingIndex + 1, height, ScanCells(TimingIndex + 1, height));
  }
}
