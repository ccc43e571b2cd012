/** ZXEncoder.swift, error correction: the data codewords are cut into
    Reed-Solomon blocks, each block gets its EC codewords, and the data
    and EC codewords are interleaved column by column across the blocks
    (ISO/IEC 18004:2006 sections 6.5 and 6.6). */
module EncoderBlocks {
  import opened Errors
  import opened Bits
  import opened BitArray
  import opened GenericGF
  import opened GenericGFPoly
  import opened QRField256
  import opened ReedSolomon
  import opened ErrorCorrectionLevels
  import opened QRVersions
  import opened BlockInterleaving

  // ---------------------------------------------------------------------
  // EC bytes of one block

  /** The conditions under which `generateECBytes` returns: a nonnegative
      EC count (the array size), and a Reed-Solomon `encode` that
      terminates whenever it does not reject the sizes. */
  predicate ECBlockDefined(data: seq<int>, capacity: int, field: GenericGF)
  {
    capacity >= 0 &&
    (capacity != 0 && |data| > 0 ==> ReedSolomonEncoder.EncodeDefined(data, field, capacity))
  }

  /** What `generateECBytes` returns: `encode` rejects an empty data part
      or a zero EC count; otherwise the `capacity` codewords it writes
      after the data. */
  function ECBytes(data: seq<int>, capacity: int, field: GenericGF): (r: Result<seq<int>>)
    requires ECBlockDefined(data, capacity, field)
    ensures r.Err? <==> capacity == 0 || |data| == 0
    ensures r.Err? ==> r.error == IllegalArgument
    ensures r.Ok? ==> |r.value| == capacity
  {
    if capacity == 0 || |data| == 0 then Err(IllegalArgument)
    else Ok(ReedSolomonEncoder.EcCodewords(data, field, capacity))
  }

  /** `generateECBytes(data:capacity:)`: copy the bytes into an array with
      `capacity` zero slots after them, let `encode` fill the slots, and
      read them back as bytes. */
  method GenerateECBytes(data: seq<int>, capacity: int, field: GenericGF) returns (r: Result<seq<int>>)
    requires IsQRField(field)
    requires forall k :: 0 <= k < |data| ==> 0 <= data[k] < 256
    requires ECBlockDefined(data, capacity, field)
    ensures r == ECBytes(data, capacity, field)
    ensures r.Ok? ==> forall k :: 0 <= k < |r.value| ==> 0 <= r.value[k] < 256
  {
    var numDataBytes := |data|;
    var source := new int[numDataBytes + capacity](_ => 0);
    CopyBytes(data, source);
    var error := ReedSolomonEncoder.Encode(source, field, capacity);
    if error.Some? {
      return Err(error.value);
    }
    ghost var ec := ReedSolomonEncoder.EcCodewords(data, field, capacity);
    assert source[numDataBytes..] == ec;
    ReedSolomonEncoder.EcCodewordsAreElements(data, field, capacity);
    var result := ReadBack(source, numDataBytes);
    return Ok(result);
  }

  /** The reading loop of `generateECBytes`: the slots from `offset` on,
      copied into a fresh array of that many bytes. */
  method ReadBack(source: array<int>, offset: nat) returns (r: seq<int>)
    requires offset <= source.Length
    ensures r == source[offset..]
  {
    var capacity := source.Length - offset;
    var result := new int[capacity](_ => 0);
    var idx := 0;
    while idx < capacity
      invariant 0 <= idx <= capacity
      invariant forall k :: 0 <= k < idx ==> result[k] == source[offset + k]
    {
      result[idx] := source[offset + idx];
      idx := idx + 1;
    }
    r := result[..];
  }

  /** The copying loop of `generateECBytes`: each byte, masked with 0xFF,
      into the front of the array. */
  method CopyBytes(data: seq<int>, source: array<int>)
    requires forall k :: 0 <= k < |data| ==> 0 <= data[k] < 256
    requires |data| <= source.Length
    modifies source
    ensures source[..|data|] == data
    ensures source[|data|..] == old(source[|data|..])
  {
    var idx := 0;
    while idx < |data|
      invariant 0 <= idx <= |data|
      invariant forall k :: 0 <= k < idx ==> source[k] == data[k]
      invariant forall k :: |data| <= k < source.Length ==> source[k] == old(source[k])
    {
      ByteMask(data[idx]);
      source[idx] := And(data[idx], 0xFF);
      idx := idx + 1;
    }
  }

  /** A byte masked with 0xFF is itself. */
  lemma ByteMask(b: int)
    requires 0 <= b < 256
    ensures And(b, 0xFF) == b
  {
    AndLowMask(b, 8);
    assert Pow2(8) == 256;
  }

  /** A block no longer than its EC count, with a nonzero first byte, gets
      its own bytes as EC bytes, zero-padded in front: the reduction that
      `encode` performs (see `ReedSolomonEncoder.ShortDataIsRemainder`)
      is the whole computation. */
  lemma ShortBlockECBytes(data: seq<int>, capacity: int, field: GenericGF)
    requires IsQRField(field) && 0 < |data| <= capacity <= 256 && data[0] != 0
    requires forall k :: 0 <= k < |data| ==> 0 <= data[k] < 256
    ensures ECBlockDefined(data, capacity, field)
    ensures ECBytes(data, capacity, field) == Ok(seq(capacity - |data|, _ => 0) + data)
  {
    QRFieldIsProper(field);
    ReedSolomonEncoder.ShortDataIsRemainder(data, field, capacity);
  }

  // ---------------------------------------------------------------------
  // Splitting the data into blocks

  /** The input of the block split: a row of the version table and data
      that fills its data capacity exactly. */
  predicate BlockInput(v: Version, level: ErrorCorrectionLevel, data: seq<bool>)
  {
    WellFormed(v) && |data| == 8 * MaxDataBytes(v, level)
  }

  /** `count` bytes read from bit `offset` on, eight bits each, most
      significant first: what `makeByteArray(offset:targetSize:)` returns. */
  function BytesAt(bits: seq<bool>, offset: nat, count: nat): (r: seq<int>)
    requires offset + 8 * count <= |bits|
    ensures |r| == count
    ensures forall k :: 0 <= k < count ==>
      r[k] == ValueMsb(bits[offset + 8 * k..offset + 8 * k + 8]) && 0 <= r[k] < 256
  {
    if count == 0 then []
    else
      var s := offset + 8 * (count - 1);
      ValueMsbBound(bits[s..s + 8]);
      assert Pow2(8) == 256;
      BytesAt(bits, offset, count - 1) + [ValueMsb(bits[s..s + 8])]
  }

  /** The data bytes of block i in a row of the table: `maxDataBytes /
      blocks`, one more for the blocks past the first group (the value
      `getErrorCorrectionCapacity` returns, see `BlockSizeIsCapacity`).
      Every row has blocks (`BlockCountPositive`); a level without any
      has no bytes. */
  function BlockSize(v: Version, level: ErrorCorrectionLevel, i: int): int
  {
    var blocks := TotalBlockCount(Blocks(v, level));
    if blocks <= 0 then 0
    else if i < blocks - v.totalCodewords % blocks then MaxDataBytes(v, level) / blocks
    else MaxDataBytes(v, level) / blocks + 1
  }

  /** Where block i starts: the data bytes of the blocks before it. */
  function BlockOffset(v: Version, level: ErrorCorrectionLevel, i: int): int
  {
    if i <= 0 then 0 else BlockOffset(v, level, i - 1) + BlockSize(v, level, i - 1)
  }

  /** The data bytes of block i: the slice of the data that starts after
      the bytes of the blocks before it and is as long as the block's
      `dataBytesCapacity`. */
  function BlockData(data: seq<bool>, v: Version, level: ErrorCorrectionLevel, i: int): (r: seq<int>)
    requires BlockInput(v, level, data)
    requires 0 <= i < TotalBlockCount(Blocks(v, level))
    ensures |r| == BlockSize(v, level, i)
  {
    DataCapacityWithin(v, level, i);
    BytesAt(data, 8 * BlockOffset(v, level, i), BlockSize(v, level, i))
  }

  /** The data bytes of the first n blocks, in block order. */
  function DataBlocks(v: Version, level: ErrorCorrectionLevel, data: seq<bool>, n: nat): (r: seq<seq<int>>)
    requires BlockInput(v, level, data)
    requires n <= TotalBlockCount(Blocks(v, level))
    ensures |r| == n
  {
    if n == 0 then [] else DataBlocks(v, level, data, n - 1) + [BlockData(data, v, level, n - 1)]
  }

  /** The data bytes of every block of a table row, in block order. */
  function BlockRows(v: Version, level: ErrorCorrectionLevel, data: seq<bool>): (r: seq<seq<int>>)
    requires BlockInput(v, level, data)
    ensures |r| == TotalBlockCount(Blocks(v, level))
  {
    BlockCountPositive(v, level);
    DataBlocks(v, level, data, TotalBlockCount(Blocks(v, level)))
  }

  /** Reed-Solomon `encode` terminates on every block (see
      `ReedSolomonEncoder.EncodeDefined`). */
  predicate BlocksDefined(v: Version, level: ErrorCorrectionLevel, data: seq<bool>, field: GenericGF)
  {
    BlockInput(v, level, data) &&
    RowsEncodable(BlockRows(v, level, data), field, Blocks(v, level).ecCodewordsPerBlock)
  }

  /** The input of the block loop: the QR code field, and blocks on
      which `encode` terminates. */
  predicate ECInput(v: Version, level: ErrorCorrectionLevel, data: seq<bool>, field: GenericGF)
  {
    IsQRField(field) && BlocksDefined(v, level, data, field)
  }

  /** The data bytes and the EC codewords of every block, in block
      order. */
  function AllBlocks(v: Version, level: ErrorCorrectionLevel, data: seq<bool>, field: GenericGF): (seq<seq<int>>, seq<seq<int>>)
    requires BlocksDefined(v, level, data, field)
  {
    var rows := BlockRows(v, level, data);
    (rows, ECRowsOf(rows, field, Blocks(v, level).ecCodewordsPerBlock))
  }

  /** `applyErrorCorrection(version:errorCorrectionLevel:data:)`: check
      that the data fills the capacity, split it into blocks with their EC
      bytes, check the bytes used, interleave data then EC bytes, and
      check the total against `totalCodewords`. */
  function ErrorCorrected(v: Version, level: ErrorCorrectionLevel, data: seq<bool>, field: GenericGF): Result<seq<bool>>
    requires (|data| + 7) / 8 == MaxDataBytes(v, level) ==>
      BlocksDefined(v, level, data, field)
  {
    var numDataBytes := MaxDataBytes(v, level);
    if (|data| + 7) / 8 != numDataBytes then Err(InvalidFormat)
    else
      var rows := AllBlocks(v, level, data, field);
      Assembled(numDataBytes, BlockOffset(v, level, TotalBlockCount(Blocks(v, level))), v.totalCodewords, rows.0, rows.1)
  }

  /** In a row of the table, `getErrorCorrectionCapacity` gives each
      block `BlockSize` data bytes and `ecCodewordsPerBlock` EC bytes. */
  lemma BlockSizeIsCapacity(v: Version, level: ErrorCorrectionLevel, i: int)
    requires WellFormed(v) && 0 <= i < TotalBlockCount(Blocks(v, level))
    ensures GetErrorCorrectionCapacity(v, i, level) ==
      Ok((BlockSize(v, level, i), Blocks(v, level).ecCodewordsPerBlock))
  {
    CapacityOfBlock(v, i, level);
  }

  /** The offsets are the running sums of the capacities
      `getErrorCorrectionCapacity` returns. */
  lemma {:induction false} BlockOffsetIsCapacitySum(v: Version, level: ErrorCorrectionLevel, n: int)
    requires WellFormed(v) && 0 <= n <= TotalBlockCount(Blocks(v, level))
    ensures TotalBlockCount(Blocks(v, level)) > 0
    ensures BlockOffset(v, level, n) == DataCapacitySum(v, level, n)
  {
    LevelFacts(v, level);
    if n > 0 {
      BlockOffsetIsCapacitySum(v, level, n - 1);
      BlockSizeIsCapacity(v, level, n - 1);
    }
  }

  /** The blocks before block i and block i itself lie within the data
      capacity, and all the blocks fill it. */
  lemma DataCapacityWithin(v: Version, level: ErrorCorrectionLevel, i: int)
    requires WellFormed(v) && 0 <= i < TotalBlockCount(Blocks(v, level))
    ensures 0 <= BlockOffset(v, level, i) && 0 <= BlockSize(v, level, i)
    ensures BlockOffset(v, level, i) + BlockSize(v, level, i) <= MaxDataBytes(v, level)
  {
    var blocks := TotalBlockCount(Blocks(v, level));
    var max := MaxDataBytes(v, level);
    LevelFacts(v, level);
    MaxDataIsDataSum(v, level);
    DivBounds(max, blocks);
    DivBounds(v.totalCodewords, blocks);
    DataCapacityPrefix(v, level, i);
    DataCapacityPrefix(v, level, i + 1);
    DataCapacityPrefix(v, level, blocks);
    DataCapacitiesSum(v, level);
    BlockOffsetIsCapacitySum(v, level, i);
    BlockOffsetIsCapacitySum(v, level, i + 1);
    WithinArith(BlockOffset(v, level, i), BlockOffset(v, level, i + 1),
      BlockSize(v, level, i), max, max / blocks, blocks, blocks - v.totalCodewords % blocks, i);
  }

  /** A row of the table has at least one block. */
  lemma BlockCountPositive(v: Version, level: ErrorCorrectionLevel)
    requires WellFormed(v)
    ensures TotalBlockCount(Blocks(v, level)) > 0
  {
    LevelFacts(v, level);
  }

  /** All the blocks together fill the data capacity. */
  lemma BlocksFill(v: Version, level: ErrorCorrectionLevel)
    requires WellFormed(v)
    ensures TotalBlockCount(Blocks(v, level)) > 0
    ensures BlockOffset(v, level, TotalBlockCount(Blocks(v, level))) == MaxDataBytes(v, level)
  {
    LevelFacts(v, level);
    BlockOffsetIsCapacitySum(v, level, TotalBlockCount(Blocks(v, level)));
    DataCapacitiesSum(v, level);
  }

  /** Every block of a table row has at least one data byte and one EC
      byte. */
  lemma BlockSizesPositive(v: Version, level: ErrorCorrectionLevel, i: int)
    requires WellFormed(v) && 0 <= i < TotalBlockCount(Blocks(v, level))
    ensures BlockSize(v, level, i) >= 1 && Blocks(v, level).ecCodewordsPerBlock >= 1
  {
    var blocks := TotalBlockCount(Blocks(v, level));
    LevelFacts(v, level);
    MaxDataIsDataSum(v, level);
    DataAtLeastBlocks(Blocks(v, level).ecBlocks);
    DivAtLeastOne(MaxDataBytes(v, level), blocks);
  }

  /** Every block holds at least one data byte. */
  lemma {:induction false} DataAtLeastBlocks(groups: seq<ECB>)
    requires PositiveGroups(groups)
    ensures DataSum(groups) >= BlockCountSum(groups)
    decreases |groups|
  {
    if groups != [] {
      var last := groups[|groups| - 1];
      DataAtLeastBlocks(groups[..|groups| - 1]);
      MulAtLeast(last.dataCodewords, last.blockCount);
    }
  }

  /** a >= b > 0 gives a / b >= 1. */
  lemma DivAtLeastOne(a: int, b: int)
    requires a >= b > 0
    ensures a / b >= 1
  {
  }

  /** The arithmetic of `DataCapacityWithin`: with the prefix sums given
      by their closed form, the block's bytes lie within the capacity. */
  lemma WithinArith(sum: int, next: int, count: int, max: int, perBlock: int, blocks: int, group1: int, i: int)
    requires perBlock >= 0 && 0 <= group1 && 0 <= i < blocks
    requires sum == perBlock * i + (if i > group1 then i - group1 else 0)
    requires next == perBlock * (i + 1) + (if i + 1 > group1 then i + 1 - group1 else 0)
    requires max == perBlock * blocks + (if blocks > group1 then blocks - group1 else 0)
    requires next == sum + count
    ensures 0 <= sum && 0 <= count && sum + count <= max
  {
    PrefixBounds(perBlock, blocks, group1, i);
    PrefixBounds(perBlock, blocks, group1, i + 1);
  }

  /** Euclidean division of a nonnegative number. */
  lemma DivBounds(a: int, b: int)
    requires a >= 0 && b > 0
    ensures a / b >= 0 && 0 <= a % b < b
  {
  }

  /** n rounds of `perBlock` bytes plus one byte for each block past the
      first group grow with n. */
  lemma PrefixBounds(perBlock: int, blocks: int, group1: int, n: int)
    requires perBlock >= 0 && 0 <= n <= blocks && 0 <= group1
    ensures 0 <= perBlock * n + (if n > group1 then n - group1 else 0)
      <= perBlock * blocks + (if blocks > group1 then blocks - group1 else 0)
    ensures n < blocks ==>
      perBlock * n + (if n > group1 then n - group1 else 0)
      <= perBlock * (n + 1) + (if n + 1 > group1 then n + 1 - group1 else 0)
  {
    MulMonotone(0, n, perBlock);
    MulMonotone(n, blocks, perBlock);
    MulStep(n, perBlock);
  }

  // ---------------------------------------------------------------------
  // The blocks of a table row

  /** Entry j of the first n data blocks is block j. */
  lemma {:induction false} DataBlocksAt(v: Version, level: ErrorCorrectionLevel, data: seq<bool>, n: nat, j: nat)
    requires BlockInput(v, level, data)
    requires j < n <= TotalBlockCount(Blocks(v, level))
    ensures DataBlocks(v, level, data, n)[j] == BlockData(data, v, level, j)
  {
    if j < n - 1 {
      DataBlocksAt(v, level, data, n - 1, j);
    }
  }

  /** Block j of a table row holds the data bytes of block j. */
  lemma BlockRowsAt(v: Version, level: ErrorCorrectionLevel, data: seq<bool>, j: nat)
    requires BlockInput(v, level, data)
    requires j < TotalBlockCount(Blocks(v, level))
    ensures BlockRows(v, level, data)[j] == BlockData(data, v, level, j)
  {
    DataBlocksAt(v, level, data, TotalBlockCount(Blocks(v, level)), j);
  }

  /** The first n data blocks hold the bytes before block n. */
  lemma {:induction false} DataBlocksLength(v: Version, level: ErrorCorrectionLevel, data: seq<bool>, n: nat)
    requires BlockInput(v, level, data)
    requires n <= TotalBlockCount(Blocks(v, level))
    ensures TotalLength(DataBlocks(v, level, data, n)) == BlockOffset(v, level, n)
  {
    if n > 0 {
      var rows := DataBlocks(v, level, data, n);
      assert rows[..n - 1] == DataBlocks(v, level, data, n - 1);
      DataBlocksLength(v, level, data, n - 1);
    }
  }

  /** Every block has at least as many data bytes as block 0. */
  lemma BlockRowsLong(v: Version, level: ErrorCorrectionLevel, data: seq<bool>)
    requires BlockInput(v, level, data)
    ensures forall k :: 0 <= k < |BlockRows(v, level, data)| ==>
      BlockSize(v, level, 0) <= |BlockRows(v, level, data)[k]|
  {
    var n := TotalBlockCount(Blocks(v, level));
    BlockCountPositive(v, level);
    DivBounds(v.totalCodewords, n);
    forall k | 0 <= k < n
      ensures BlockSize(v, level, 0) <= |BlockRows(v, level, data)[k]|
    {
      BlockRowsAt(v, level, data, k);
    }
  }

  /** Data that fills the capacity passes every check of
      `applyErrorCorrection`: the result is the interleaved bytes as bits,
      `totalCodewords` bytes long. */
  lemma ErrorCorrectedOk(v: Version, level: ErrorCorrectionLevel, data: seq<bool>, field: GenericGF)
    requires BlocksDefined(v, level, data, field)
    ensures var rows := AllBlocks(v, level, data, field);
      ErrorCorrected(v, level, data, field) == Ok(BitsOfBytes(InterleavedBytes(rows.0, rows.1)))
    ensures ErrorCorrected(v, level, data, field).Ok? &&
      |ErrorCorrected(v, level, data, field).value| == 8 * v.totalCodewords
  {
    var rows := AllBlocks(v, level, data, field);
    var n := TotalBlockCount(Blocks(v, level));
    BlocksFill(v, level);
    InterleavedLength(v, level, data, field);
    assert (8 * v.totalCodewords + 7) / 8 == v.totalCodewords;
  }

  /** The interleaved bytes of a table row: `totalCodewords` of them. */
  lemma InterleavedLength(v: Version, level: ErrorCorrectionLevel, data: seq<bool>, field: GenericGF)
    requires BlocksDefined(v, level, data, field)
    ensures |Columns(AllBlocks(v, level, data, field).0, MaxLength(AllBlocks(v, level, data, field).0))| == MaxDataBytes(v, level)
    ensures |InterleavedBytes(AllBlocks(v, level, data, field).0, AllBlocks(v, level, data, field).1)| == v.totalCodewords
  {
    var rows := AllBlocks(v, level, data, field);
    var n := TotalBlockCount(Blocks(v, level));
    BlocksFill(v, level);
    DataBlocksLength(v, level, data, n);
    ECRowsOfLength(rows.0, field, Blocks(v, level).ecCodewordsPerBlock);
    ColumnsLength(rows.0, MaxLength(rows.0));
    ColumnsLength(rows.1, MaxLength(rows.1));
  }

  /** Data byte c of block j, for c below the size of the shorter blocks,
      is byte c * blocks + j of the interleaving: the data codewords go
      out column by column across the blocks. */
  lemma DataInterleaved(v: Version, level: ErrorCorrectionLevel, data: seq<bool>, field: GenericGF, c: nat, j: nat)
    requires BlocksDefined(v, level, data, field)
    requires j < TotalBlockCount(Blocks(v, level)) && c < BlockSize(v, level, 0)
    ensures var rows := AllBlocks(v, level, data, field);
      var bytes := InterleavedBytes(rows.0, rows.1);
      Slot(c, j, TotalBlockCount(Blocks(v, level))) < |bytes| &&
      bytes[Slot(c, j, TotalBlockCount(Blocks(v, level)))] == BlockData(data, v, level, j)[c]
  {
    var rows := AllBlocks(v, level, data, field);
    BlockRowsLong(v, level, data);
    BlockRowsAt(v, level, data, j);
    DataRowsInterleaved(rows.0, rows.1, BlockSize(v, level, 0), c, j);
  }

  /** EC byte c of block j is byte MaxDataBytes + c * blocks + j of the
      interleaving: the EC codewords follow the data, column by column
      across the blocks. */
  lemma ECInterleaved(v: Version, level: ErrorCorrectionLevel, data: seq<bool>, field: GenericGF, c: nat, j: nat)
    requires BlocksDefined(v, level, data, field)
    requires j < TotalBlockCount(Blocks(v, level)) && c < Blocks(v, level).ecCodewordsPerBlock
    ensures var rows := AllBlocks(v, level, data, field);
      var bytes := InterleavedBytes(rows.0, rows.1);
      var k := MaxDataBytes(v, level) + Slot(c, j, TotalBlockCount(Blocks(v, level)));
      k < |bytes| &&
      bytes[k] == ReedSolomonEncoder.EcCodewords(BlockRows(v, level, data)[j], field, Blocks(v, level).ecCodewordsPerBlock)[c]
  {
    InterleavedLength(v, level, data, field);
    ECRowsAfterData(v, level, BlockRows(v, level, data), AllBlocks(v, level, data, field), field, c, j);
  }

  /** `ECInterleaved` on the rows themselves: after the data bytes, EC
      codeword c of row j is at c * blocks + j. */
  lemma ECRowsAfterData(v: Version, level: ErrorCorrectionLevel, rows: seq<seq<int>>,
      all: (seq<seq<int>>, seq<seq<int>>), field: GenericGF, c: nat, j: nat)
    requires RowsEncodable(rows, field, Blocks(v, level).ecCodewordsPerBlock)
    requires all == (rows, ECRowsOf(rows, field, Blocks(v, level).ecCodewordsPerBlock))
    requires TotalBlockCount(Blocks(v, level)) == |rows|
    requires c < Blocks(v, level).ecCodewordsPerBlock && j < |rows|
    requires |Columns(all.0, MaxLength(all.0))| == MaxDataBytes(v, level)
    ensures var bytes := InterleavedBytes(all.0, all.1);
      var k := MaxDataBytes(v, level) + Slot(c, j, TotalBlockCount(Blocks(v, level)));
      k < |bytes| &&
      bytes[k] == ReedSolomonEncoder.EcCodewords(rows[j], field, Blocks(v, level).ecCodewordsPerBlock)[c]
  {
    ECRowsInterleaved(rows, rows, field, Blocks(v, level).ecCodewordsPerBlock, c, j);
  }

  // ---------------------------------------------------------------------
  // The operation

  /** `applyErrorCorrection(version:errorCorrectionLevel:data:)`. The
      version is a row of the table, and the data, once it passes the size
      check, is exactly the data capacity in bits (`makeByteArray` traps
      otherwise) with blocks on which `encode` terminates. */
  method ApplyErrorCorrection(v: Version, level: ErrorCorrectionLevel, data: seq<bool>, field: GenericGF)
    returns (r: Result<seq<bool>>)
    requires WellFormed(v) && IsQRField(field)
    requires (|data| + 7) / 8 == MaxDataBytes(v, level) ==>
      BlocksDefined(v, level, data, field)
    ensures r == ErrorCorrected(v, level, data, field)
  {
    var numDataBytes := MaxDataBytes(v, level);
    var testDataBytesCount := (|data| + 7) / 8;
    if testDataBytesCount != numDataBytes {
      return Err(InvalidFormat);
    }
    r := CorrectBlocks(v, level, data, field);
  }

  /** `applyErrorCorrection` once the data has passed the size check:
      the blocks, the check of the bytes used, the interleaving and the
      check of the total. */
  method CorrectBlocks(v: Version, level: ErrorCorrectionLevel, data: seq<bool>, field: GenericGF)
    returns (r: Result<seq<bool>>)
    requires ECInput(v, level, data, field)
    ensures r == ErrorCorrected(v, level, data, field)
  {
    var numDataBytes := MaxDataBytes(v, level);
    var numTotalBytes := v.totalCodewords;
    var numReedSolomonBlocks := CountBlocks(Blocks(v, level));
    var blocks, dataBytesOffset, maxDataBytesCount, maxECBytesCount :=
      SplitIntoBlocks(v, level, data, field, numReedSolomonBlocks);
    r := AssembleRows(numDataBytes, dataBytesOffset, numTotalBytes, blocks, maxDataBytesCount, maxECBytesCount);
  }

  /** The block loop of `applyErrorCorrection`: cut each block's bytes
      from the data, generate its EC bytes, and track the offset and the
      longest data and EC parts. */
  method SplitIntoBlocks(v: Version, level: ErrorCorrectionLevel, data: seq<bool>, field: GenericGF, numReedSolomonBlocks: int)
    returns (blocks: seq<BlockPair>, dataBytesOffset: int, maxDataBytesCount: nat, maxECBytesCount: nat)
    requires ECInput(v, level, data, field)
    requires numReedSolomonBlocks == TotalBlockCount(Blocks(v, level))
    ensures (DataRows(blocks), ECRows(blocks)) == AllBlocks(v, level, data, field)
    ensures dataBytesOffset == BlockOffset(v, level, numReedSolomonBlocks)
    ensures maxDataBytesCount == MaxLength(DataRows(blocks))
    ensures maxECBytesCount == MaxLength(ECRows(blocks))
  {
    ghost var rows := BlockRows(v, level, data);
    ghost var ecRows := ECRowsOf(rows, field, Blocks(v, level).ecCodewordsPerBlock);
    dataBytesOffset, maxDataBytesCount, maxECBytesCount := 0, 0, 0;
    blocks := [];
    var blockIdx := 0;
    while blockIdx < numReedSolomonBlocks
      invariant 0 <= blockIdx <= |rows|
      invariant DataRows(blocks) == rows[..blockIdx]
      invariant ECRows(blocks) == ecRows[..blockIdx]
      invariant dataBytesOffset == BlockOffset(v, level, blockIdx)
      invariant maxDataBytesCount == MaxLength(DataRows(blocks))
      invariant maxECBytesCount == MaxLength(ECRows(blocks))
    {
      blocks, dataBytesOffset, maxDataBytesCount, maxECBytesCount :=
        AddBlock(v, level, data, field, blockIdx, blocks, dataBytesOffset, maxDataBytesCount, maxECBytesCount);
      blockIdx := blockIdx + 1;
    }
    WholePrefix(rows, blockIdx);
    WholePrefix(ecRows, blockIdx);
  }

  /** The body of the block loop: the next block, appended, with the
      offset and the longest data and EC parts brought up to date. */
  method AddBlock(v: Version, level: ErrorCorrectionLevel, data: seq<bool>, field: GenericGF, blockIdx: nat,
                  blocks: seq<BlockPair>, dataBytesOffset: int, maxDataBytesCount: nat, maxECBytesCount: nat)
    returns (blocks': seq<BlockPair>, dataBytesOffset': int, maxDataBytesCount': nat, maxECBytesCount': nat)
    requires ECInput(v, level, data, field)
    requires blockIdx < TotalBlockCount(Blocks(v, level))
    requires DataRows(blocks) == BlockRows(v, level, data)[..blockIdx]
    requires ECRows(blocks) == ECRowsOf(BlockRows(v, level, data), field, Blocks(v, level).ecCodewordsPerBlock)[..blockIdx]
    requires dataBytesOffset == BlockOffset(v, level, blockIdx)
    requires maxDataBytesCount == MaxLength(DataRows(blocks))
    requires maxECBytesCount == MaxLength(ECRows(blocks))
    ensures DataRows(blocks') == BlockRows(v, level, data)[..blockIdx + 1]
    ensures ECRows(blocks') == ECRowsOf(BlockRows(v, level, data), field, Blocks(v, level).ecCodewordsPerBlock)[..blockIdx + 1]
    ensures dataBytesOffset' == BlockOffset(v, level, blockIdx + 1)
    ensures maxDataBytesCount' == MaxLength(DataRows(blocks'))
    ensures maxECBytesCount' == MaxLength(ECRows(blocks'))
  {
    var block := MakeBlock(v, level, data, field, blockIdx, dataBytesOffset);
    OffsetStep(v, level, blockIdx);
    blocks', dataBytesOffset', maxDataBytesCount', maxECBytesCount' :=
      AppendBlock(blocks, block, dataBytesOffset, maxDataBytesCount, maxECBytesCount, BlockRows(v, level, data),
        ECRowsOf(BlockRows(v, level, data), field, Blocks(v, level).ecCodewordsPerBlock), blockIdx);
  }

  /** The bookkeeping half of the loop body: append the block, move the
      offset past its data bytes and keep the longest data and EC parts. */
  method AppendBlock(blocks: seq<BlockPair>, block: BlockPair, dataBytesOffset: int, maxDataBytesCount: nat,
                     maxECBytesCount: nat, ghost rows: seq<seq<int>>, ghost ecRows: seq<seq<int>>, ghost i: nat)
    returns (blocks': seq<BlockPair>, dataBytesOffset': int, maxDataBytesCount': nat, maxECBytesCount': nat)
    requires i < |rows| && i < |ecRows|
    requires DataRows(blocks) == rows[..i] && ECRows(blocks) == ecRows[..i]
    requires block.dataBytes == rows[i] && block.errorCorrectionBytes == ecRows[i]
    requires maxDataBytesCount == MaxLength(DataRows(blocks)) && maxECBytesCount == MaxLength(ECRows(blocks))
    ensures DataRows(blocks') == rows[..i + 1] && ECRows(blocks') == ecRows[..i + 1]
    ensures dataBytesOffset' == dataBytesOffset + |block.dataBytes|
    ensures maxDataBytesCount' == MaxLength(DataRows(blocks')) && maxECBytesCount' == MaxLength(ECRows(blocks'))
  {
    BlocksStep(blocks, block, rows, ecRows, i);
    RowsAppend(blocks, block);
    blocks' := blocks + [block];
    var dataCount := |block.dataBytes|;
    dataBytesOffset' := dataBytesOffset + dataCount;
    maxDataBytesCount' := if maxDataBytesCount < dataCount then dataCount else maxDataBytesCount;
    maxECBytesCount' := if maxECBytesCount < |block.errorCorrectionBytes| then |block.errorCorrectionBytes| else maxECBytesCount;
  }

  /** The offset of the next block is past the bytes of this one. */
  lemma OffsetStep(v: Version, level: ErrorCorrectionLevel, i: nat)
    ensures BlockOffset(v, level, i + 1) == BlockOffset(v, level, i) + BlockSize(v, level, i)
  {
  }

  /** One pass of the block loop: the block's bytes and its EC bytes. */
  method MakeBlock(v: Version, level: ErrorCorrectionLevel, data: seq<bool>, field: GenericGF, blockIdx: int, dataBytesOffset: int)
    returns (block: BlockPair)
    requires ECInput(v, level, data, field)
    requires 0 <= blockIdx < TotalBlockCount(Blocks(v, level))
    requires dataBytesOffset == BlockOffset(v, level, blockIdx)
    ensures block.dataBytes == BlockRows(v, level, data)[blockIdx]
    ensures block.errorCorrectionBytes ==
      ECRowsOf(BlockRows(v, level, data), field, Blocks(v, level).ecCodewordsPerBlock)[blockIdx]
    ensures |block.dataBytes| == BlockSize(v, level, blockIdx)
  {
    var dataBytes, ecCount := ReadBlock(v, level, data, blockIdx, dataBytesOffset);
    ECRowsOfAt(BlockRows(v, level, data), field, ecCount, blockIdx);
    // `try` never throws: the block has data bytes and EC bytes.
    var ecBytes := GenerateECBytes(dataBytes, ecCount, field);
    block := BlockPair(dataBytes, ecBytes.value);
  }

  /** The start of a pass of the block loop: the block's capacity from
      `getErrorCorrectionCapacity`, and its bytes from the data at the
      current offset. */
  method ReadBlock(v: Version, level: ErrorCorrectionLevel, data: seq<bool>, blockIdx: int, dataBytesOffset: int)
    returns (dataBytes: seq<int>, ecCount: int)
    requires BlockInput(v, level, data)
    requires 0 <= blockIdx < TotalBlockCount(Blocks(v, level))
    requires dataBytesOffset == BlockOffset(v, level, blockIdx)
    ensures dataBytes == BlockRows(v, level, data)[blockIdx]
    ensures |dataBytes| == BlockSize(v, level, blockIdx) >= 1
    ensures ecCount == Blocks(v, level).ecCodewordsPerBlock >= 1
    ensures forall k :: 0 <= k < |dataBytes| ==> 0 <= dataBytes[k] < 256
  {
    BlockSizeIsCapacity(v, level, blockIdx);
    var capacityInfo := GetErrorCorrectionCapacity(v, blockIdx, level).value;
    DataCapacityWithin(v, level, blockIdx);
    dataBytes := MakeByteArray(data, dataBytesOffset * 8, capacityInfo.0);
    ecCount := capacityInfo.1;
    BlockRowsAt(v, level, data, blockIdx);
    BlockSizesPositive(v, level, blockIdx);
  }
}
