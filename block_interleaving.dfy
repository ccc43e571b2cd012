/** ZXBlockPair.swift and the interleaving part of ZXEncoder.swift: the
    rows of data and EC bytes of the blocks, the EC codewords Reed-Solomon
    `encode` writes for each row, and the column-by-column interleaving of
    rows (ISO/IEC 18004:2006 section 6.6). Nothing here depends on the
    version table. */
module BlockInterleaving {
  import opened Bits
  import opened BitArray
  import opened GenericGF
  import opened ReedSolomon
  import opened Errors

  /** `ZXBlockPair`: the data bytes of one block and its EC bytes. */
  datatype BlockPair = BlockPair(dataBytes: seq<int>, errorCorrectionBytes: seq<int>)

  // ---------------------------------------------------------------------
  // Rows of the blocks

  /** The data bytes of each block, in block order. */
  function DataRows(pairs: seq<BlockPair>): (r: seq<seq<int>>)
    ensures |r| == |pairs| && forall i :: 0 <= i < |pairs| ==> r[i] == pairs[i].dataBytes
  {
    seq(|pairs|, i requires 0 <= i < |pairs| => pairs[i].dataBytes)
  }

  /** The EC bytes of each block, in block order. */
  function ECRows(pairs: seq<BlockPair>): (r: seq<seq<int>>)
    ensures |r| == |pairs| && forall i :: 0 <= i < |pairs| ==> r[i] == pairs[i].errorCorrectionBytes
  {
    seq(|pairs|, i requires 0 <= i < |pairs| => pairs[i].errorCorrectionBytes)
  }

  /** Appending a block appends its rows, and the longest row is the
      running maximum. */
  lemma RowsAppend(pairs: seq<BlockPair>, p: BlockPair)
    ensures DataRows(pairs + [p]) == DataRows(pairs) + [p.dataBytes]
    ensures ECRows(pairs + [p]) == ECRows(pairs) + [p.errorCorrectionBytes]
    ensures MaxLength(DataRows(pairs + [p])) ==
      if MaxLength(DataRows(pairs)) < |p.dataBytes| then |p.dataBytes| else MaxLength(DataRows(pairs))
    ensures MaxLength(ECRows(pairs + [p])) ==
      if MaxLength(ECRows(pairs)) < |p.errorCorrectionBytes| then |p.errorCorrectionBytes| else MaxLength(ECRows(pairs))
  {
    assert DataRows(pairs + [p])[..|pairs|] == DataRows(pairs);
    assert ECRows(pairs + [p])[..|pairs|] == ECRows(pairs);
  }

  /** The blocks hold the first i data rows and the first i EC rows;
      appending a block that holds row i of each gives the first i + 1. */
  lemma BlocksStep(blocks: seq<BlockPair>, block: BlockPair, rows: seq<seq<int>>, ecRows: seq<seq<int>>, i: nat)
    requires i < |rows| && i < |ecRows|
    requires DataRows(blocks) == rows[..i] && ECRows(blocks) == ecRows[..i]
    requires block.dataBytes == rows[i] && block.errorCorrectionBytes == ecRows[i]
    ensures DataRows(blocks + [block]) == rows[..i + 1]
    ensures ECRows(blocks + [block]) == ecRows[..i + 1]
  {
    RowsAppend(blocks, block);
    PrefixStep(rows, i);
    PrefixStep(ecRows, i);
  }

  // ---------------------------------------------------------------------
  // EC codewords of each row

  /** `encode` terminates on every row. */
  predicate RowsEncodable(rows: seq<seq<int>>, field: GenericGF, ec: int)
  {
    forall i :: 0 <= i < |rows| ==> ReedSolomonEncoder.EncodeDefined(rows[i], field, ec)
  }

  /** The EC codewords `encode` writes after each row, in row order. In a
      row of the table every block has data and EC bytes
      (`BlockSizesPositive`), so `generateECBytes` never throws. */
  function ECRowsOf(rows: seq<seq<int>>, field: GenericGF, ec: int): (r: seq<seq<int>>)
    requires RowsEncodable(rows, field, ec)
    ensures |r| == |rows|
  {
    if rows == [] then []
    else ECRowsOf(rows[..|rows| - 1], field, ec) + [ReedSolomonEncoder.EcCodewords(rows[|rows| - 1], field, ec)]
  }

  /** Entry j of the EC rows holds the EC codewords of row j. */
  lemma {:induction false} ECRowsOfAt(rows: seq<seq<int>>, field: GenericGF, ec: int, j: nat)
    requires RowsEncodable(rows, field, ec) && j < |rows|
    ensures ECRowsOf(rows, field, ec)[j] == ReedSolomonEncoder.EcCodewords(rows[j], field, ec)
  {
    if j < |rows| - 1 {
      ECRowsOfAt(rows[..|rows| - 1], field, ec, j);
    }
  }

  /** Every EC row holds `ec` codewords, `ec` times the number of rows in
      all. */
  lemma {:induction false} ECRowsOfLength(rows: seq<seq<int>>, field: GenericGF, ec: int)
    requires RowsEncodable(rows, field, ec)
    ensures forall k :: 0 <= k < |rows| ==> |ECRowsOf(rows, field, ec)[k]| == ec
    ensures TotalLength(ECRowsOf(rows, field, ec)) == |rows| * ec
  {
    if rows != [] {
      var front := rows[..|rows| - 1];
      var r := ECRowsOf(rows, field, ec);
      ECRowsOfLength(front, field, ec);
      assert r[..|rows| - 1] == ECRowsOf(front, field, ec);
      MulStep(|rows| - 1, ec);
    }
  }

  // ---------------------------------------------------------------------
  // Interleaving

  /** Entry idx of every row long enough to have one, in row order: one
      pass of the inner `for block in blocks` loop. */
  function Column(rows: seq<seq<int>>, idx: nat): (r: seq<int>)
    ensures |r| <= |rows|
  {
    if rows == [] then []
    else
      var last := rows[|rows| - 1];
      Column(rows[..|rows| - 1], idx) + (if idx < |last| then [last[idx]] else [])
  }

  /** Columns 0 to width - 1, one after the other: the whole of one pair
      of nested interleaving loops. */
  function Columns(rows: seq<seq<int>>, width: nat): seq<int>
  {
    if width == 0 then [] else Columns(rows, width - 1) + Column(rows, width - 1)
  }

  /** The longest row: the running `max` that starts at 0. */
  function MaxLength(rows: seq<seq<int>>): (r: nat)
    ensures forall j :: 0 <= j < |rows| ==> |rows[j]| <= r
    ensures rows == [] ==> r == 0
    ensures rows != [] ==> exists j :: 0 <= j < |rows| && |rows[j]| == r
  {
    if rows == [] then 0
    else
      var m := MaxLength(rows[..|rows| - 1]);
      assert forall j :: 0 <= j < |rows| - 1 ==> rows[..|rows| - 1][j] == rows[j];
      if |rows[|rows| - 1]| > m then |rows[|rows| - 1]| else m
  }

  /** The number of entries in all rows. */
  function TotalLength(rows: seq<seq<int>>): nat
  {
    if rows == [] then 0 else TotalLength(rows[..|rows| - 1]) + |rows[|rows| - 1]|
  }

  /** A column below every row's length holds entry idx of each row. */
  lemma {:induction false} ColumnFull(rows: seq<seq<int>>, idx: nat)
    requires forall j :: 0 <= j < |rows| ==> idx < |rows[j]|
    ensures |Column(rows, idx)| == |rows|
    ensures forall j :: 0 <= j < |rows| ==> Column(rows, idx)[j] == rows[j][idx]
    decreases |rows|
  {
    if rows != [] {
      var front := rows[..|rows| - 1];
      assert forall j :: 0 <= j < |front| ==> front[j] == rows[j];
      ColumnFull(front, idx);
    }
  }

  /** Dropping the last row drops its entries from every column. */
  lemma ColumnsLastRow(rows: seq<seq<int>>, width: nat)
    requires rows != []
    ensures |Columns(rows, width)| ==
      |Columns(rows[..|rows| - 1], width)| + (if |rows[|rows| - 1]| < width then |rows[|rows| - 1]| else width)
    decreases width
  {
    if width > 0 {
      ColumnsLastRow(rows, width - 1);
    }
  }

  /** Interleaving up to the longest row, or further, takes every entry
      once: the output has as many entries as all rows together. */
  lemma {:induction false} ColumnsLength(rows: seq<seq<int>>, width: nat)
    requires forall j :: 0 <= j < |rows| ==> |rows[j]| <= width
    ensures |Columns(rows, width)| == TotalLength(rows)
    decreases |rows|
  {
    if rows == [] {
      ColumnsEmpty(width);
    } else {
      var front := rows[..|rows| - 1];
      assert forall j :: 0 <= j < |front| ==> front[j] == rows[j];
      ColumnsLength(front, width);
      ColumnsLastRow(rows, width);
    }
  }

  /** No rows, no entries. */
  lemma {:induction false} ColumnsEmpty(width: nat)
    ensures Columns([], width) == []
  {
    if width > 0 {
      ColumnsEmpty(width - 1);
    }
  }

  /** Position c * n + j: entry j of round c, in rounds of n. */
  function Slot(c: nat, j: nat, n: nat): nat
  {
    c * n + j
  }

  /** Up to a width that every row reaches, every column has one entry
      per row. */
  lemma {:induction false} ColumnsFullLength(rows: seq<seq<int>>, width: nat)
    requires forall j :: 0 <= j < |rows| ==> width <= |rows[j]|
    ensures |Columns(rows, width)| == Slot(width, 0, |rows|)
    decreases width
  {
    if width > 0 {
      ColumnsFullLength(rows, width - 1);
      ColumnFull(rows, width - 1);
      MulStep(width - 1, |rows|);
    }
  }

  /** Up to a width that every row reaches, the interleaved entries come
      in rounds of one per row: entry c of row j is at c * |rows| + j. */
  lemma {:induction false} ColumnsAt(rows: seq<seq<int>>, width: nat, c: nat, j: nat)
    requires forall k :: 0 <= k < |rows| ==> width <= |rows[k]|
    requires c < width && j < |rows|
    ensures Slot(c, j, |rows|) < |Columns(rows, width)|
    ensures Columns(rows, width)[Slot(c, j, |rows|)] == rows[j][c]
    decreases width
  {
    var n := |rows|;
    var front, col := Columns(rows, width - 1), Column(rows, width - 1);
    ColumnsFullLength(rows, width - 1);
    ColumnFull(rows, width - 1);
    RoundArithmetic(c, j, n, width);
    if c < width - 1 {
      ColumnsAt(rows, width - 1, c, j);
      assert (front + col)[Slot(c, j, n)] == front[Slot(c, j, n)];
    } else {
      assert (front + col)[Slot(c, j, n)] == col[j];
    }
  }

  /** Round c of n entries, for c below width, lies in the first width - 1
      rounds or is the last round. */
  lemma RoundArithmetic(c: int, j: int, n: int, width: int)
    requires 0 <= c < width && 0 <= j < n
    ensures (width - 1) * n + n == width * n
    ensures c < width - 1 ==> c * n + j < (width - 1) * n
    ensures c == width - 1 ==> c * n + j == (width - 1) * n + j
  {
    MulStep(width - 1, n);
    if c < width - 1 {
      MulStep(c, n);
      MulMonotone(c + 1, width - 1, n);
    }
  }

  /** (a + 1) n == a n + n. */
  lemma MulStep(a: int, n: int)
    ensures (a + 1) * n == a * n + n
  {
  }

  // ---------------------------------------------------------------------
  // Interleaving of rows: lengths and positions

  /** The longest row is at least as long as any row. */
  lemma MaxLengthAtLeast(rows: seq<seq<int>>, j: int)
    requires 0 <= j < |rows|
    ensures |rows[j]| <= MaxLength(rows)
  {
  }

  /** Rows of one length w: the longest is w, and entry c of row j is at
      c * |rows| + j. */
  lemma EqualRowsAt(rows: seq<seq<int>>, w: nat, c: nat, j: nat)
    requires forall k :: 0 <= k < |rows| ==> |rows[k]| == w
    requires c < w && j < |rows|
    ensures MaxLength(rows) == w
    ensures Slot(c, j, |rows|) < |Columns(rows, MaxLength(rows))|
    ensures Columns(rows, MaxLength(rows))[Slot(c, j, |rows|)] == rows[j][c]
  {
    MaxLengthAtLeast(rows, j);
    ColumnsAt(rows, w, c, j);
  }

  /** Rows of at least w entries: for c below w, entry c of row j is at
      c * |rows| + j of the whole interleaving, whatever the longer rows
      add in the later columns. */
  lemma LongRowsAt(rows: seq<seq<int>>, w: nat, c: nat, j: nat)
    requires forall k :: 0 <= k < |rows| ==> w <= |rows[k]|
    requires c < w && j < |rows|
    ensures Slot(c, j, |rows|) < |Columns(rows, MaxLength(rows))|
    ensures Columns(rows, MaxLength(rows))[Slot(c, j, |rows|)] == rows[j][c]
  {
    MaxLengthAtLeast(rows, j);
    ColumnsAt(rows, w, c, j);
    ColumnsPrefix(rows, w, MaxLength(rows));
  }

  /** Interleaving fewer columns gives a prefix. */
  lemma {:induction false} ColumnsPrefix(rows: seq<seq<int>>, w: nat, width: nat)
    requires w <= width
    ensures |Columns(rows, w)| <= |Columns(rows, width)|
    ensures Columns(rows, width)[..|Columns(rows, w)|] == Columns(rows, w)
    decreases width
  {
    if w < width {
      ColumnsPrefix(rows, w, width - 1);
      var front := Columns(rows, width - 1);
      assert Columns(rows, width) == front + Column(rows, width - 1);
      assert (front + Column(rows, width - 1))[..|Columns(rows, w)|] == front[..|Columns(rows, w)|];
    }
  }

  /** Entry c of data row j, for c below a length every data row
      reaches, is byte c * |rows| + j of the interleaving. */
  lemma DataRowsInterleaved(dataRows: seq<seq<int>>, ecRows: seq<seq<int>>, w: nat, c: nat, j: nat)
    requires forall k :: 0 <= k < |dataRows| ==> w <= |dataRows[k]|
    requires c < w && j < |dataRows|
    ensures Slot(c, j, |dataRows|) < |InterleavedBytes(dataRows, ecRows)|
    ensures InterleavedBytes(dataRows, ecRows)[Slot(c, j, |dataRows|)] == dataRows[j][c]
  {
    LongRowsAt(dataRows, w, c, j);
  }

  /** EC codeword c of row j follows all the data bytes, at c * |rows| +
      j of the EC part of the interleaving. */
  lemma ECRowsInterleaved(dataRows: seq<seq<int>>, rows: seq<seq<int>>, field: GenericGF, ec: int, c: nat, j: nat)
    requires RowsEncodable(rows, field, ec)
    requires c < ec && j < |rows|
    ensures var k := |Columns(dataRows, MaxLength(dataRows))| + Slot(c, j, |rows|);
      k < |InterleavedBytes(dataRows, ECRowsOf(rows, field, ec))| &&
      InterleavedBytes(dataRows, ECRowsOf(rows, field, ec))[k] ==
        ReedSolomonEncoder.EcCodewords(rows[j], field, ec)[c]
  {
    var ecRows := ECRowsOf(rows, field, ec);
    ECRowsOfLength(rows, field, ec);
    ECRowsOfAt(rows, field, ec, j);
    EqualRowsAt(ecRows, ec, c, j);
    InterleavedAtEC(dataRows, ecRows, Slot(c, j, |rows|));
  }

  /** Entry s of the EC part follows all the data bytes. */
  lemma InterleavedAtEC(dataRows: seq<seq<int>>, ecRows: seq<seq<int>>, s: nat)
    requires s < |Columns(ecRows, MaxLength(ecRows))|
    ensures var k := |Columns(dataRows, MaxLength(dataRows))| + s;
      k < |InterleavedBytes(dataRows, ecRows)| &&
      InterleavedBytes(dataRows, ecRows)[k] == Columns(ecRows, MaxLength(ecRows))[s]
  {
  }

  // ---------------------------------------------------------------------
  // The interleaving loops

  /** The data bytes column by column across the blocks, then the EC
      bytes the same way. */
  function InterleavedBytes(dataRows: seq<seq<int>>, ecRows: seq<seq<int>>): seq<int>
  {
    Columns(dataRows, MaxLength(dataRows)) + Columns(ecRows, MaxLength(ecRows))
  }

  /** The two pairs of interleaving loops of `applyErrorCorrection`,
      given the longest data and EC rows. */
  method InterleaveRows(dataRows: seq<seq<int>>, ecRows: seq<seq<int>>, maxDataBytesCount: nat, maxECBytesCount: nat)
    returns (result: seq<bool>)
    requires maxDataBytesCount == MaxLength(dataRows) && maxECBytesCount == MaxLength(ecRows)
    ensures result == BitsOfBytes(InterleavedBytes(dataRows, ecRows))
  {
    result := AppendInterleaved([], dataRows, maxDataBytesCount);
    result := AppendInterleaved(result, ecRows, maxECBytesCount);
    BitsOfBytesAppend(Columns(dataRows, maxDataBytesCount), Columns(ecRows, maxECBytesCount));
    assert [] + BitsOfBytes(Columns(dataRows, maxDataBytesCount)) == BitsOfBytes(Columns(dataRows, maxDataBytesCount));
  }

  /** One pair of interleaving loops: for each index below `width`, the
      byte at that index of every row long enough, as eight bits. */
  method AppendInterleaved(result: seq<bool>, rows: seq<seq<int>>, width: nat) returns (out: seq<bool>)
    ensures out == result + BitsOfBytes(Columns(rows, width))
  {
    out := result;
    var idx := 0;
    while idx < width
      invariant 0 <= idx <= width
      invariant out == result + BitsOfBytes(Columns(rows, idx))
    {
      ghost var done, next := BitsOfBytes(Columns(rows, idx)), BitsOfBytes(Column(rows, idx));
      out := AppendColumn(out, rows, idx);
      BitsOfBytesAppend(Columns(rows, idx), Column(rows, idx));
      AppendAssoc(result, done, next);
      assert Columns(rows, idx + 1) == Columns(rows, idx) + Column(rows, idx);
      idx := idx + 1;
    }
  }

  /** The inner `for block in blocks` loop: byte idx of each row that has
      one. */
  method AppendColumn(result: seq<bool>, rows: seq<seq<int>>, idx: nat) returns (out: seq<bool>)
    ensures out == result + BitsOfBytes(Column(rows, idx))
  {
    out := result;
    var j := 0;
    while j < |rows|
      invariant 0 <= j <= |rows|
      invariant out == result + BitsOfBytes(Column(rows[..j], idx))
    {
      var row := rows[j];
      assert rows[..j + 1][..j] == rows[..j];
      var piece := if idx < |row| then [row[idx]] else [];
      assert Column(rows[..j + 1], idx) == Column(rows[..j], idx) + piece;
      BitsOfBytesAppend(Column(rows[..j], idx), piece);
      if idx < |row| {
        assert BitsOfBytes(piece) == MakeBitArray(row[idx], 8) + BitsOfBytes([]);
        out := out + MakeBitArray(row[idx], 8);
      }
      j := j + 1;
    }
    assert rows[..j] == rows;
  }

  /** The end of `applyErrorCorrection` once the blocks are made: the
      bytes the blocks used must be the data capacity, the interleaved
      bytes as bits must come to `numTotalBytes` bytes, and anything else
      is `InvalidFormat`. */
  function Assembled(numDataBytes: int, dataBytesOffset: int, numTotalBytes: int,
                     dataRows: seq<seq<int>>, ecRows: seq<seq<int>>): Result<seq<bool>>
  {
    if numDataBytes != dataBytesOffset then Err(InvalidFormat)
    else
      var result := BitsOfBytes(InterleavedBytes(dataRows, ecRows));
      if numTotalBytes != (|result| + 7) / 8 then Err(InvalidFormat) else Ok(result)
  }

  /** The two checks of `applyErrorCorrection` around the interleaving
      loops, given the blocks and their longest data and EC parts. */
  method AssembleRows(numDataBytes: int, dataBytesOffset: int, numTotalBytes: int, blocks: seq<BlockPair>,
                      maxDataBytesCount: nat, maxECBytesCount: nat) returns (r: Result<seq<bool>>)
    requires maxDataBytesCount == MaxLength(DataRows(blocks)) && maxECBytesCount == MaxLength(ECRows(blocks))
    ensures r == Assembled(numDataBytes, dataBytesOffset, numTotalBytes, DataRows(blocks), ECRows(blocks))
    ensures r.Ok? ==> r.value == BitsOfBytes(InterleavedBytes(DataRows(blocks), ECRows(blocks)))
  {
    if numDataBytes != dataBytesOffset {
      return Err(InvalidFormat);
    }
    var result := InterleaveRows(DataRows(blocks), ECRows(blocks), maxDataBytesCount, maxECBytesCount);
    var resultBytesCount := (|result| + 7) / 8;
    if numTotalBytes != resultBytesCount {
      return Err(InvalidFormat);
    }
    return Ok(result);
  }
}
