/** `ZXVersion`: the 40 QR Code versions with their error-correction block
    structure (ISO/IEC 18004:2006 section 6.5.1, Table 9), the capacity
    arithmetic built on it, the search for the smallest version that holds
    a message, and the error-tolerant decoding of the 18-bit version word
    (Annex D). */
module QRVersions {
  import opened Errors
  import opened Bits
  import opened ErrorCorrectionLevels
  import opened FormatInformations
  import Modes

  /** `ValidVersionNumbers`: 1...40. */
  const MinVersionNumber := 1
  const MaxVersionNumber := 40

  /** `VersionInfoDecodeTolerance`. */
  const VersionInfoDecodeTolerance := 3

  /** `ECB`: `blockCount` consecutive blocks of `dataCodewords` data bytes. */
  datatype ECB = ECB(blockCount: int, dataCodewords: int)

  /** `ECBlocks`: the block groups of one level, and the EC bytes of each
      block. */
  datatype ECBlocks = ECBlocks(ecCodewordsPerBlock: int, ecBlocks: seq<ECB>)

  /** The `[ZXErrorCorrectionLevel : ECBlocks]` dictionary of a version.
      Every dictionary the library builds has all four keys, so it is a
      record with one field per level. */
  datatype LevelBlocks = LevelBlocks(low: ECBlocks, medium: ECBlocks, quartile: ECBlocks, high: ECBlocks)

  /** `ZXVersion`. All its fields are constants. */
  datatype Version = Version(
    versionNumber: int,
    alignmentPatternCenters: seq<int>,
    errorCorrectionBlocks: LevelBlocks,
    totalCodewords: int)

  /** The dictionary entry of a level. */
  function BlocksOf(ecBlocks: LevelBlocks, level: ErrorCorrectionLevel): ECBlocks
  {
    match level
    case L => ecBlocks.low
    case M => ecBlocks.medium
    case Q => ecBlocks.quartile
    case H => ecBlocks.high
  }

  /** `errorCorrectionBlocks(ecLevel:)`; the force unwrap always succeeds. */
  function Blocks(v: Version, level: ErrorCorrectionLevel): ECBlocks
  {
    BlocksOf(v.errorCorrectionBlocks, level)
  }

  // ---------------------------------------------------------------------
  // Block sums

  /** The number of blocks in a list of groups. */
  function BlockCountSum(groups: seq<ECB>): int
  {
    if groups == [] then 0 else BlockCountSum(groups[..|groups| - 1]) + groups[|groups| - 1].blockCount
  }

  /** The number of data bytes in a list of groups. */
  function DataSum(groups: seq<ECB>): int
  {
    if groups == [] then 0
    else
      var last := groups[|groups| - 1];
      DataSum(groups[..|groups| - 1]) + last.blockCount * last.dataCodewords
  }

  /** The bytes of a list of groups, data and EC together, as `init` sums
      them: `blockCount * (dataCodewords + ecCodewordsPerBlock)` per group.
      They are the data bytes plus `ecCodewordsPerBlock` per block. */
  function CodewordSum(groups: seq<ECB>, ecCodewordsPerBlock: int): (r: int)
    ensures r == DataSum(groups) + ecCodewordsPerBlock * BlockCountSum(groups)
  {
    if groups == [] then 0
    else
      var last := groups[|groups| - 1];
      var rest := CodewordSum(groups[..|groups| - 1], ecCodewordsPerBlock);
      assert last.blockCount * (last.dataCodewords + ecCodewordsPerBlock)
          == last.blockCount * last.dataCodewords + ecCodewordsPerBlock * last.blockCount;
      rest + last.blockCount * (last.dataCodewords + ecCodewordsPerBlock)
  }

  /** `ECBlocks.totalBlockCount`. */
  function TotalBlockCount(blocks: ECBlocks): int
  {
    BlockCountSum(blocks.ecBlocks)
  }

  /** `ECBlocks.totalECCodewords`. */
  function TotalECCodewords(blocks: ECBlocks): int
  {
    blocks.ecCodewordsPerBlock * TotalBlockCount(blocks)
  }

  /** The `forEach` loop of `totalBlockCount`. */
  method CountBlocks(blocks: ECBlocks) returns (total: int)
    ensures total == TotalBlockCount(blocks)
  {
    total := 0;
    var i := 0;
    while i < |blocks.ecBlocks|
      invariant 0 <= i <= |blocks.ecBlocks|
      invariant total == BlockCountSum(blocks.ecBlocks[..i])
    {
      assert blocks.ecBlocks[..i + 1][..i] == blocks.ecBlocks[..i];
      total := total + blocks.ecBlocks[i].blockCount;
      i := i + 1;
    }
    assert blocks.ecBlocks[..i] == blocks.ecBlocks;
  }

  /** The `totalCodewords` that `init` sums from `first`, the entry the
      dictionary yields first: its data bytes plus its EC bytes. */
  function InitTotal(ecBlocks: LevelBlocks, first: ErrorCorrectionLevel): (r: int)
    ensures r == DataSum(BlocksOf(ecBlocks, first).ecBlocks) + TotalECCodewords(BlocksOf(ecBlocks, first))
  {
    CodewordSum(BlocksOf(ecBlocks, first).ecBlocks, BlocksOf(ecBlocks, first).ecCodewordsPerBlock)
  }

  /** The summing loop of `init`. */
  method CountTotalCodewords(ecBlocks: LevelBlocks, first: ErrorCorrectionLevel) returns (total: int)
    ensures total == InitTotal(ecBlocks, first)
  {
    total := 0;
    var block := BlocksOf(ecBlocks, first);
    var ecCodewordsPerBlock := block.ecCodewordsPerBlock;
    var i := 0;
    while i < |block.ecBlocks|
      invariant 0 <= i <= |block.ecBlocks|
      invariant total == CodewordSum(block.ecBlocks[..i], ecCodewordsPerBlock)
    {
      assert block.ecBlocks[..i + 1][..i] == block.ecBlocks[..i];
      total := total + block.ecBlocks[i].blockCount * (block.ecBlocks[i].dataCodewords + ecCodewordsPerBlock);
      i := i + 1;
    }
    assert block.ecBlocks[..i] == block.ecBlocks;
  }

  /** `init(versionNumber:alignmentCenters:_:)`, with the dictionary's
      first entry taken to be level L. Swift leaves the order of a
      dictionary to hashing; `TableWellFormed` shows that for every row
      of the table each level gives the same total. */
  function MakeVersion(versionNumber: int, alignmentCenters: seq<int>, ecBlocks: LevelBlocks): Version
  {
    Version(versionNumber, alignmentCenters, ecBlocks, InitTotal(ecBlocks, L))
  }

  /** `supportsEncoding`: only versions 7 and up carry version
      information. */
  predicate SupportsEncoding(v: Version)
  {
    v.versionNumber >= 7
  }

  /** `supportsPositionAlignment`. */
  predicate SupportsPositionAlignment(v: Version)
  {
    v.versionNumber >= 2
  }

  /** `getDimension()`: the side of the symbol in modules. */
  function Dimension(v: Version): int
  {
    17 + 4 * v.versionNumber
  }

  // ---------------------------------------------------------------------
  // The table

  /** What every row of the table satisfies: each level has at least one
      block group, positive counts, a positive number of EC bytes per
      block, and data and EC bytes adding up to `totalCodewords`; alignment
      patterns exist from version 2 on, from column 6 to column
      `dimension - 7`. */
  predicate WellFormed(v: Version)
  {
    && (forall level :: LevelWellFormed(Blocks(v, level), v.totalCodewords))
    && 1 <= v.versionNumber <= 40
    && (SupportsPositionAlignment(v) <==> |v.alignmentPatternCenters| > 0)
    && (|v.alignmentPatternCenters| > 0 ==>
          v.alignmentPatternCenters[0] == 6 &&
          v.alignmentPatternCenters[|v.alignmentPatternCenters| - 1] == Dimension(v) - 7)
  }

  predicate LevelWellFormed(blocks: ECBlocks, totalCodewords: int)
  {
    && blocks.ecBlocks != []
    && blocks.ecCodewordsPerBlock > 0
    && PositiveGroups(blocks.ecBlocks)
    && CodewordSum(blocks.ecBlocks, blocks.ecCodewordsPerBlock) == totalCodewords
  }

  /** Every group has a positive number of blocks of positive size. */
  predicate PositiveGroups(groups: seq<ECB>)
  {
    groups == [] ||
    (PositiveGroups(groups[..|groups| - 1]) &&
     groups[|groups| - 1].blockCount > 0 && groups[|groups| - 1].dataCodewords > 0)
  }

  /** Positive groups hold a positive number of blocks and of data bytes. */
  lemma {:induction false} PositiveSums(groups: seq<ECB>)
    requires PositiveGroups(groups) && groups != []
    ensures BlockCountSum(groups) > 0 && DataSum(groups) > 0
  {
    var last := groups[|groups| - 1];
    MulAtLeast(last.blockCount, last.dataCodewords);
    if |groups| > 1 {
      PositiveSums(groups[..|groups| - 1]);
    }
  }

  /** The rows of `Versions` (Table 9), with the `totalCodewords` that
      `init` computes for them (`TableWellFormed`). */
  function Version1(): Version { Version(1, [], LevelBlocks(
    ECBlocks(7, [ECB(1, 19)]), ECBlocks(10, [ECB(1, 16)]),
    ECBlocks(13, [ECB(1, 13)]), ECBlocks(17, [ECB(1, 9)])), 26) }
  function Version2(): Version { Version(2, [6, 18], LevelBlocks(
    ECBlocks(10, [ECB(1, 34)]), ECBlocks(16, [ECB(1, 28)]),
    ECBlocks(22, [ECB(1, 22)]), ECBlocks(28, [ECB(1, 16)])), 44) }
  function Version3(): Version { Version(3, [6, 22], LevelBlocks(
    ECBlocks(15, [ECB(1, 55)]), ECBlocks(26, [ECB(1, 44)]),
    ECBlocks(18, [ECB(2, 17)]), ECBlocks(22, [ECB(2, 13)])), 70) }
  function Version4(): Version { Version(4, [6, 26], LevelBlocks(
    ECBlocks(20, [ECB(1, 80)]), ECBlocks(18, [ECB(2, 32)]),
    ECBlocks(26, [ECB(2, 24)]), ECBlocks(16, [ECB(4, 9)])), 100) }
  function Version5(): Version { Version(5, [6, 30], LevelBlocks(
    ECBlocks(26, [ECB(1, 108)]), ECBlocks(24, [ECB(2, 43)]),
    ECBlocks(18, [ECB(2, 15), ECB(2, 16)]), ECBlocks(22, [ECB(2, 11), ECB(2, 12)])), 134) }
  function Version6(): Version { Version(6, [6, 34], LevelBlocks(
    ECBlocks(18, [ECB(2, 68)]), ECBlocks(16, [ECB(4, 27)]),
    ECBlocks(24, [ECB(4, 19)]), ECBlocks(28, [ECB(4, 15)])), 172) }
  function Version7(): Version { Version(7, [6, 22, 38], LevelBlocks(
    ECBlocks(20, [ECB(2, 78)]), ECBlocks(18, [ECB(4, 31)]),
    ECBlocks(18, [ECB(2, 14), ECB(4, 15)]), ECBlocks(26, [ECB(4, 13), ECB(1, 14)])), 196) }
  function Version8(): Version { Version(8, [6, 24, 42], LevelBlocks(
    ECBlocks(24, [ECB(2, 97)]), ECBlocks(22, [ECB(2, 38), ECB(2, 39)]),
    ECBlocks(22, [ECB(4, 18), ECB(2, 19)]), ECBlocks(26, [ECB(4, 14), ECB(2, 15)])), 242) }
  function Version9(): Version { Version(9, [6, 26, 46], LevelBlocks(
    ECBlocks(30, [ECB(2, 116)]), ECBlocks(22, [ECB(3, 36), ECB(2, 37)]),
    ECBlocks(20, [ECB(4, 16), ECB(4, 17)]), ECBlocks(24, [ECB(4, 12), ECB(4, 13)])), 292) }
  function Version10(): Version { Version(10, [6, 28, 50], LevelBlocks(
    ECBlocks(18, [ECB(2, 68), ECB(2, 69)]), ECBlocks(26, [ECB(4, 43), ECB(1, 44)]),
    ECBlocks(24, [ECB(6, 19), ECB(2, 20)]), ECBlocks(28, [ECB(6, 15), ECB(2, 16)])), 346) }
  function Version11(): Version { Version(11, [6, 30, 54], LevelBlocks(
    ECBlocks(20, [ECB(4, 81)]), ECBlocks(30, [ECB(1, 50), ECB(4, 51)]),
    ECBlocks(28, [ECB(4, 22), ECB(4, 23)]), ECBlocks(24, [ECB(3, 12), ECB(8, 13)])), 404) }
  function Version12(): Version { Version(12, [6, 32, 58], LevelBlocks(
    ECBlocks(24, [ECB(2, 92), ECB(2, 93)]), ECBlocks(22, [ECB(6, 36), ECB(2, 37)]),
    ECBlocks(26, [ECB(4, 20), ECB(6, 21)]), ECBlocks(28, [ECB(7, 14), ECB(4, 15)])), 466) }
  function Version13(): Version { Version(13, [6, 34, 62], LevelBlocks(
    ECBlocks(26, [ECB(4, 107)]), ECBlocks(22, [ECB(8, 37), ECB(1, 38)]),
    ECBlocks(24, [ECB(8, 20), ECB(4, 21)]), ECBlocks(22, [ECB(12, 11), ECB(4, 12)])), 532) }
  function Version14(): Version { Version(14, [6, 26, 46, 66], LevelBlocks(
    ECBlocks(30, [ECB(3, 115), ECB(1, 116)]), ECBlocks(24, [ECB(4, 40), ECB(5, 41)]),
    ECBlocks(20, [ECB(11, 16), ECB(5, 17)]), ECBlocks(24, [ECB(11, 12), ECB(5, 13)])), 581) }
  function Version15(): Version { Version(15, [6, 26, 48, 70], LevelBlocks(
    ECBlocks(22, [ECB(5, 87), ECB(1, 88)]), ECBlocks(24, [ECB(5, 41), ECB(5, 42)]),
    ECBlocks(30, [ECB(5, 24), ECB(7, 25)]), ECBlocks(24, [ECB(11, 12), ECB(7, 13)])), 655) }
  function Version16(): Version { Version(16, [6, 26, 50, 74], LevelBlocks(
    ECBlocks(24, [ECB(5, 98), ECB(1, 99)]), ECBlocks(28, [ECB(7, 45), ECB(3, 46)]),
    ECBlocks(24, [ECB(15, 19), ECB(2, 20)]), ECBlocks(30, [ECB(3, 15), ECB(13, 16)])), 733) }
  function Version17(): Version { Version(17, [6, 30, 54, 78], LevelBlocks(
    ECBlocks(28, [ECB(1, 107), ECB(5, 108)]), ECBlocks(28, [ECB(10, 46), ECB(1, 47)]),
    ECBlocks(28, [ECB(1, 22), ECB(15, 23)]), ECBlocks(28, [ECB(2, 14), ECB(17, 15)])), 815) }
  function Version18(): Version { Version(18, [6, 30, 56, 82], LevelBlocks(
    ECBlocks(30, [ECB(5, 120), ECB(1, 121)]), ECBlocks(26, [ECB(9, 43), ECB(4, 44)]),
    ECBlocks(28, [ECB(17, 22), ECB(1, 23)]), ECBlocks(28, [ECB(2, 14), ECB(19, 15)])), 901) }
  function Version19(): Version { Version(19, [6, 30, 58, 86], LevelBlocks(
    ECBlocks(28, [ECB(3, 113), ECB(4, 114)]), ECBlocks(26, [ECB(3, 44), ECB(11, 45)]),
    ECBlocks(26, [ECB(17, 21), ECB(4, 22)]), ECBlocks(26, [ECB(9, 13), ECB(16, 14)])), 991) }
  function Version20(): Version { Version(20, [6, 34, 62, 90], LevelBlocks(
    ECBlocks(28, [ECB(3, 107), ECB(5, 108)]), ECBlocks(26, [ECB(3, 41), ECB(13, 42)]),
    ECBlocks(30, [ECB(15, 24), ECB(5, 25)]), ECBlocks(28, [ECB(15, 15), ECB(10, 16)])), 1085) }
  function Version21(): Version { Version(21, [6, 28, 50, 72, 94], LevelBlocks(
    ECBlocks(28, [ECB(4, 116), ECB(4, 117)]), ECBlocks(26, [ECB(17, 42)]),
    ECBlocks(28, [ECB(17, 22), ECB(6, 23)]), ECBlocks(30, [ECB(19, 16), ECB(6, 17)])), 1156) }
  function Version22(): Version { Version(22, [6, 26, 50, 74, 98], LevelBlocks(
    ECBlocks(28, [ECB(2, 111), ECB(7, 112)]), ECBlocks(28, [ECB(17, 46)]),
    ECBlocks(30, [ECB(7, 24), ECB(16, 25)]), ECBlocks(24, [ECB(34, 13)])), 1258) }
  function Version23(): Version { Version(23, [6, 30, 54, 78, 102], LevelBlocks(
    ECBlocks(30, [ECB(4, 121), ECB(5, 122)]), ECBlocks(28, [ECB(4, 47), ECB(14, 48)]),
    ECBlocks(30, [ECB(11, 24), ECB(14, 25)]), ECBlocks(30, [ECB(16, 15), ECB(14, 16)])), 1364) }
  function Version24(): Version { Version(24, [6, 28, 54, 80, 106], LevelBlocks(
    ECBlocks(30, [ECB(6, 117), ECB(4, 118)]), ECBlocks(28, [ECB(6, 45), ECB(14, 46)]),
    ECBlocks(30, [ECB(11, 24), ECB(16, 25)]), ECBlocks(30, [ECB(30, 16), ECB(2, 17)])), 1474) }
  function Version25(): Version { Version(25, [6, 32, 58, 84, 110], LevelBlocks(
    ECBlocks(26, [ECB(8, 106), ECB(4, 107)]), ECBlocks(28, [ECB(8, 47), ECB(13, 48)]),
    ECBlocks(30, [ECB(7, 24), ECB(22, 25)]), ECBlocks(30, [ECB(22, 15), ECB(13, 16)])), 1588) }
  function Version26(): Version { Version(26, [6, 30, 58, 86, 114], LevelBlocks(
    ECBlocks(28, [ECB(10, 114), ECB(2, 115)]), ECBlocks(28, [ECB(19, 46), ECB(4, 47)]),
    ECBlocks(28, [ECB(28, 22), ECB(6, 23)]), ECBlocks(30, [ECB(33, 16), ECB(4, 17)])), 1706) }
  function Version27(): Version { Version(27, [6, 34, 62, 90, 118], LevelBlocks(
    ECBlocks(30, [ECB(8, 122), ECB(4, 123)]), ECBlocks(28, [ECB(22, 45), ECB(3, 46)]),
    ECBlocks(30, [ECB(8, 23), ECB(26, 24)]), ECBlocks(30, [ECB(12, 15), ECB(28, 16)])), 1828) }
  function Version28(): Version { Version(28, [6, 26, 50, 74, 98, 122], LevelBlocks(
    ECBlocks(30, [ECB(3, 117), ECB(10, 118)]), ECBlocks(28, [ECB(3, 45), ECB(23, 46)]),
    ECBlocks(30, [ECB(4, 24), ECB(31, 25)]), ECBlocks(30, [ECB(11, 15), ECB(31, 16)])), 1921) }
  function Version29(): Version { Version(29, [6, 30, 54, 78, 102, 126], LevelBlocks(
    ECBlocks(30, [ECB(7, 116), ECB(7, 117)]), ECBlocks(28, [ECB(21, 45), ECB(7, 46)]),
    ECBlocks(30, [ECB(1, 23), ECB(37, 24)]), ECBlocks(30, [ECB(19, 15), ECB(26, 16)])), 2051) }
  function Version30(): Version { Version(30, [6, 26, 52, 78, 104, 130], LevelBlocks(
    ECBlocks(30, [ECB(5, 115), ECB(10, 116)]), ECBlocks(28, [ECB(19, 47), ECB(10, 48)]),
    ECBlocks(30, [ECB(15, 24), ECB(25, 25)]), ECBlocks(30, [ECB(23, 15), ECB(25, 16)])), 2185) }
  function Version31(): Version { Version(31, [6, 30, 56, 82, 108, 134], LevelBlocks(
    ECBlocks(30, [ECB(13, 115), ECB(3, 116)]), ECBlocks(28, [ECB(2, 46), ECB(29, 47)]),
    ECBlocks(30, [ECB(42, 24), ECB(1, 25)]), ECBlocks(30, [ECB(23, 15), ECB(28, 16)])), 2323) }
  function Version32(): Version { Version(32, [6, 34, 60, 86, 112, 138], LevelBlocks(
    ECBlocks(30, [ECB(17, 115)]), ECBlocks(28, [ECB(10, 46), ECB(23, 47)]),
    ECBlocks(30, [ECB(10, 24), ECB(35, 25)]), ECBlocks(30, [ECB(19, 15), ECB(35, 16)])), 2465) }
  function Version33(): Version { Version(33, [6, 30, 58, 86, 114, 142], LevelBlocks(
    ECBlocks(30, [ECB(17, 115), ECB(1, 116)]), ECBlocks(28, [ECB(14, 46), ECB(21, 47)]),
    ECBlocks(30, [ECB(29, 24), ECB(19, 25)]), ECBlocks(30, [ECB(11, 15), ECB(46, 16)])), 2611) }
  function Version34(): Version { Version(34, [6, 34, 62, 90, 118, 146], LevelBlocks(
    ECBlocks(30, [ECB(13, 115), ECB(6, 116)]), ECBlocks(28, [ECB(14, 46), ECB(23, 47)]),
    ECBlocks(30, [ECB(44, 24), ECB(7, 25)]), ECBlocks(30, [ECB(59, 16), ECB(1, 17)])), 2761) }
  function Version35(): Version { Version(35, [6, 30, 54, 78, 102, 126, 150], LevelBlocks(
    ECBlocks(30, [ECB(12, 121), ECB(7, 122)]), ECBlocks(28, [ECB(12, 47), ECB(26, 48)]),
    ECBlocks(30, [ECB(39, 24), ECB(14, 25)]), ECBlocks(30, [ECB(22, 15), ECB(41, 16)])), 2876) }
  function Version36(): Version { Version(36, [6, 24, 50, 76, 102, 128, 154], LevelBlocks(
    ECBlocks(30, [ECB(6, 121), ECB(14, 122)]), ECBlocks(28, [ECB(6, 47), ECB(34, 48)]),
    ECBlocks(30, [ECB(46, 24), ECB(10, 25)]), ECBlocks(30, [ECB(2, 15), ECB(64, 16)])), 3034) }
  function Version37(): Version { Version(37, [6, 28, 54, 80, 106, 132, 158], LevelBlocks(
    ECBlocks(30, [ECB(17, 122), ECB(4, 123)]), ECBlocks(28, [ECB(29, 46), ECB(14, 47)]),
    ECBlocks(30, [ECB(49, 24), ECB(10, 25)]), ECBlocks(30, [ECB(24, 15), ECB(46, 16)])), 3196) }
  function Version38(): Version { Version(38, [6, 32, 58, 84, 110, 136, 162], LevelBlocks(
    ECBlocks(30, [ECB(4, 122), ECB(18, 123)]), ECBlocks(28, [ECB(13, 46), ECB(32, 47)]),
    ECBlocks(30, [ECB(48, 24), ECB(14, 25)]), ECBlocks(30, [ECB(42, 15), ECB(32, 16)])), 3362) }
  function Version39(): Version { Version(39, [6, 26, 54, 82, 110, 138, 166], LevelBlocks(
    ECBlocks(30, [ECB(20, 117), ECB(4, 118)]), ECBlocks(28, [ECB(40, 47), ECB(7, 48)]),
    ECBlocks(30, [ECB(43, 24), ECB(22, 25)]), ECBlocks(30, [ECB(10, 15), ECB(67, 16)])), 3532) }
  function Version40(): Version { Version(40, [6, 30, 58, 86, 114, 142, 170], LevelBlocks(
    ECBlocks(30, [ECB(19, 118), ECB(6, 119)]), ECBlocks(28, [ECB(18, 47), ECB(31, 48)]),
    ECBlocks(30, [ECB(34, 24), ECB(34, 25)]), ECBlocks(30, [ECB(20, 15), ECB(61, 16)])), 3706) }

  /** Row `versionNumber` of the table, found by bisection. */
  function VersionAt(versionNumber: int): Version
    requires 1 <= versionNumber <= 40
  {
    if versionNumber <= 20 then
      if versionNumber <= 10 then
        if versionNumber <= 5 then
          if versionNumber <= 3 then
            if versionNumber <= 2 then
              if versionNumber <= 1 then
                Version1()
              else
                Version2()
            else
              Version3()
          else
            if versionNumber <= 4 then
              Version4()
            else
              Version5()
        else
          if versionNumber <= 8 then
            if versionNumber <= 7 then
              if versionNumber <= 6 then
                Version6()
              else
                Version7()
            else
              Version8()
          else
            if versionNumber <= 9 then
              Version9()
            else
              Version10()
      else
        if versionNumber <= 15 then
          if versionNumber <= 13 then
            if versionNumber <= 12 then
              if versionNumber <= 11 then
                Version11()
              else
                Version12()
            else
              Version13()
          else
            if versionNumber <= 14 then
              Version14()
            else
              Version15()
        else
          if versionNumber <= 18 then
            if versionNumber <= 17 then
              if versionNumber <= 16 then
                Version16()
              else
                Version17()
            else
              Version18()
          else
            if versionNumber <= 19 then
              Version19()
            else
              Version20()
    else
      if versionNumber <= 30 then
        if versionNumber <= 25 then
          if versionNumber <= 23 then
            if versionNumber <= 22 then
              if versionNumber <= 21 then
                Version21()
              else
                Version22()
            else
              Version23()
          else
            if versionNumber <= 24 then
              Version24()
            else
              Version25()
        else
          if versionNumber <= 28 then
            if versionNumber <= 27 then
              if versionNumber <= 26 then
                Version26()
              else
                Version27()
            else
              Version28()
          else
            if versionNumber <= 29 then
              Version29()
            else
              Version30()
      else
        if versionNumber <= 35 then
          if versionNumber <= 33 then
            if versionNumber <= 32 then
              if versionNumber <= 31 then
                Version31()
              else
                Version32()
            else
              Version33()
          else
            if versionNumber <= 34 then
              Version34()
            else
              Version35()
        else
          if versionNumber <= 38 then
            if versionNumber <= 37 then
              if versionNumber <= 36 then
                Version36()
              else
                Version37()
            else
              Version38()
          else
            if versionNumber <= 39 then
              Version39()
            else
              Version40()
  }

  /** `Versions`: the rows in order of version number. */
  function Versions(): (r: seq<Version>)
    ensures |r| == 40
  {
    VersionsUpTo(40)
  }

  /** The rows for versions 1 to n, in order. */
  function VersionsUpTo(n: nat): (r: seq<Version>)
    requires n <= 40
    ensures |r| == n
  {
    if n == 0 then [] else VersionsUpTo(n - 1) + [VersionAt(n)]
  }

  /** A level of one or two groups, in closed form. */
  lemma SmallLevel(b: ECBlocks)
    requires 1 <= |b.ecBlocks| <= 2
    ensures var g, ec := b.ecBlocks, b.ecCodewordsPerBlock;
      && (PositiveGroups(g) <==> forall i :: 0 <= i < |g| ==> g[i].blockCount > 0 && g[i].dataCodewords > 0)
      && CodewordSum(g, ec) == g[0].blockCount * (g[0].dataCodewords + ec) +
           (if |g| == 2 then g[1].blockCount * (g[1].dataCodewords + ec) else 0)
  {
    var g, ec := b.ecBlocks, b.ecCodewordsPerBlock;
    assert g[..0] == [];
    if |g| == 1 {
      assert PositiveGroups(g) <==> g[0].blockCount > 0 && g[0].dataCodewords > 0;
    } else {
      assert g[..1] == [g[0]] && [g[0]][..0] == [];
      assert PositiveGroups([g[0]]) <==> g[0].blockCount > 0 && g[0].dataCodewords > 0;
      assert PositiveGroups(g) <==> PositiveGroups([g[0]]) && g[1].blockCount > 0 && g[1].dataCodewords > 0;
    }
  }

  /** The four levels of a row, one by one. */
  lemma AllLevels(v: Version)
    requires LevelWellFormed(v.errorCorrectionBlocks.low, v.totalCodewords)
    requires LevelWellFormed(v.errorCorrectionBlocks.medium, v.totalCodewords)
    requires LevelWellFormed(v.errorCorrectionBlocks.quartile, v.totalCodewords)
    requires LevelWellFormed(v.errorCorrectionBlocks.high, v.totalCodewords)
    ensures forall level :: LevelWellFormed(Blocks(v, level), v.totalCodewords)
  {
    forall level
      ensures LevelWellFormed(Blocks(v, level), v.totalCodewords)
    {
      match level
      case L =>
      case M =>
      case Q =>
      case H =>
    }
  }

  lemma Row1() ensures WellFormed(Version1()) && Version1().versionNumber == 1 {
    var v := Version1();
    SmallLevel(v.errorCorrectionBlocks.low);
    SmallLevel(v.errorCorrectionBlocks.medium);
    SmallLevel(v.errorCorrectionBlocks.quartile);
    SmallLevel(v.errorCorrectionBlocks.high);
    AllLevels(v);
  }
  lemma Row2() ensures WellFormed(Version2()) && Version2().versionNumber == 2 {
    var v := Version2();
    SmallLevel(v.errorCorrectionBlocks.low);
    SmallLevel(v.errorCorrectionBlocks.medium);
    SmallLevel(v.errorCorrectionBlocks.quartile);
    SmallLevel(v.errorCorrectionBlocks.high);
    AllLevels(v);
  }
  lemma Row3() ensures WellFormed(Version3()) && Version3().versionNumber == 3 {
    var v := Version3();
    SmallLevel(v.errorCorrectionBlocks.low);
    SmallLevel(v.errorCorrectionBlocks.medium);
    SmallLevel(v.errorCorrectionBlocks.quartile);
    SmallLevel(v.errorCorrectionBlocks.high);
    AllLevels(v);
  }
  lemma Row4() ensures WellFormed(Version4()) && Version4().versionNumber == 4 {
    var v := Version4();
    SmallLevel(v.errorCorrectionBlocks.low);
    SmallLevel(v.errorCorrectionBlocks.medium);
    SmallLevel(v.errorCorrectionBlocks.quartile);
    SmallLevel(v.errorCorrectionBlocks.high);
    AllLevels(v);
  }
  lemma Row5() ensures WellFormed(Version5()) && Version5().versionNumber == 5 {
    var v := Version5();
    SmallLevel(v.errorCorrectionBlocks.low);
    SmallLevel(v.errorCorrectionBlocks.medium);
    SmallLevel(v.errorCorrectionBlocks.quartile);
    SmallLevel(v.errorCorrectionBlocks.high);
    AllLevels(v);
  }
  lemma Row6() ensures WellFormed(Version6()) && Version6().versionNumber == 6 {
    var v := Version6();
    SmallLevel(v.errorCorrectionBlocks.low);
    SmallLevel(v.errorCorrectionBlocks.medium);
    SmallLevel(v.errorCorrectionBlocks.quartile);
    SmallLevel(v.errorCorrectionBlocks.high);
    AllLevels(v);
  }
  lemma Row7() ensures WellFormed(Version7()) && Version7().versionNumber == 7 {
    var v := Version7();
    SmallLevel(v.errorCorrectionBlocks.low);
    SmallLevel(v.errorCorrectionBlocks.medium);
    SmallLevel(v.errorCorrectionBlocks.quartile);
    SmallLevel(v.errorCorrectionBlocks.high);
    AllLevels(v);
  }
  lemma Row8() ensures WellFormed(Version8()) && Version8().versionNumber == 8 {
    var v := Version8();
    SmallLevel(v.errorCorrectionBlocks.low);
    SmallLevel(v.errorCorrectionBlocks.medium);
    SmallLevel(v.errorCorrectionBlocks.quartile);
    SmallLevel(v.errorCorrectionBlocks.high);
    AllLevels(v);
  }

  lemma Row9() ensures WellFormed(Version9()) && Version9().versionNumber == 9 {
    var v := Version9();
    SmallLevel(v.errorCorrectionBlocks.low);
    SmallLevel(v.errorCorrectionBlocks.medium);
    SmallLevel(v.errorCorrectionBlocks.quartile);
    SmallLevel(v.errorCorrectionBlocks.high);
    AllLevels(v);
  }
  lemma Row10() ensures WellFormed(Version10()) && Version10().versionNumber == 10 {
    var v := Version10();
    SmallLevel(v.errorCorrectionBlocks.low);
    SmallLevel(v.errorCorrectionBlocks.medium);
    SmallLevel(v.errorCorrectionBlocks.quartile);
    SmallLevel(v.errorCorrectionBlocks.high);
    AllLevels(v);
  }
  lemma Row11() ensures WellFormed(Version11()) && Version11().versionNumber == 11 {
    var v := Version11();
    SmallLevel(v.errorCorrectionBlocks.low);
    SmallLevel(v.errorCorrectionBlocks.medium);
    SmallLevel(v.errorCorrectionBlocks.quartile);
    SmallLevel(v.errorCorrectionBlocks.high);
    AllLevels(v);
  }
  lemma Row12() ensures WellFormed(Version12()) && Version12().versionNumber == 12 {
    var v := Version12();
    SmallLevel(v.errorCorrectionBlocks.low);
    SmallLevel(v.errorCorrectionBlocks.medium);
    SmallLevel(v.errorCorrectionBlocks.quartile);
    SmallLevel(v.errorCorrectionBlocks.high);
    AllLevels(v);
  }
  lemma Row13() ensures WellFormed(Version13()) && Version13().versionNumber == 13 {
    var v := Version13();
    SmallLevel(v.errorCorrectionBlocks.low);
    SmallLevel(v.errorCorrectionBlocks.medium);
    SmallLevel(v.errorCorrectionBlocks.quartile);
    SmallLevel(v.errorCorrectionBlocks.high);
    AllLevels(v);
  }
  lemma Row14() ensures WellFormed(Version14()) && Version14().versionNumber == 14 {
    var v := Version14();
    SmallLevel(v.errorCorrectionBlocks.low);
    SmallLevel(v.errorCorrectionBlocks.medium);
    SmallLevel(v.errorCorrectionBlocks.quartile);
    SmallLevel(v.errorCorrectionBlocks.high);
    AllLevels(v);
  }
  lemma Row15() ensures WellFormed(Version15()) && Version15().versionNumber == 15 {
    var v := Version15();
    SmallLevel(v.errorCorrectionBlocks.low);
    SmallLevel(v.errorCorrectionBlocks.medium);
    SmallLevel(v.errorCorrectionBlocks.quartile);
    SmallLevel(v.errorCorrectionBlocks.high);
    AllLevels(v);
  }
  lemma Row16() ensures WellFormed(Version16()) && Version16().versionNumber == 16 {
    var v := Version16();
    SmallLevel(v.errorCorrectionBlocks.low);
    SmallLevel(v.errorCorrectionBlocks.medium);
    SmallLevel(v.errorCorrectionBlocks.quartile);
    SmallLevel(v.errorCorrectionBlocks.high);
    AllLevels(v);
  }
  lemma Row17() ensures WellFormed(Version17()) && Version17().versionNumber == 17 {
    var v := Version17();
    SmallLevel(v.errorCorrectionBlocks.low);
    SmallLevel(v.errorCorrectionBlocks.medium);
    SmallLevel(v.errorCorrectionBlocks.quartile);
    SmallLevel(v.errorCorrectionBlocks.high);
    AllLevels(v);
  }
  lemma Row18() ensures WellFormed(Version18()) && Version18().versionNumber == 18 {
    var v := Version18();
    SmallLevel(v.errorCorrectionBlocks.low);
    SmallLevel(v.errorCorrectionBlocks.medium);
    SmallLevel(v.errorCorrectionBlocks.quartile);
    SmallLevel(v.errorCorrectionBlocks.high);
    AllLevels(v);
  }
  lemma Row19() ensures WellFormed(Version19()) && Version19().versionNumber == 19 {
    var v := Version19();
    SmallLevel(v.errorCorrectionBlocks.low);
    SmallLevel(v.errorCorrectionBlocks.medium);
    SmallLevel(v.errorCorrectionBlocks.quartile);
    SmallLevel(v.errorCorrectionBlocks.high);
    AllLevels(v);
  }
  lemma Row20() ensures WellFormed(Version20()) && Version20().versionNumber == 20 {
    var v := Version20();
    SmallLevel(v.errorCorrectionBlocks.low);
    SmallLevel(v.errorCorrectionBlocks.medium);
    SmallLevel(v.errorCorrectionBlocks.quartile);
    SmallLevel(v.errorCorrectionBlocks.high);
    AllLevels(v);
  }
  lemma Row21() ensures WellFormed(Version21()) && Version21().versionNumber == 21 {
    var v := Version21();
    SmallLevel(v.errorCorrectionBlocks.low);
    SmallLevel(v.errorCorrectionBlocks.medium);
    SmallLevel(v.errorCorrectionBlocks.quartile);
    SmallLevel(v.errorCorrectionBlocks.high);
    AllLevels(v);
  }
  lemma Row22() ensures WellFormed(Version22()) && Version22().versionNumber == 22 {
    var v := Version22();
    SmallLevel(v.errorCorrectionBlocks.low);
    SmallLevel(v.errorCorrectionBlocks.medium);
    SmallLevel(v.errorCorrectionBlocks.quartile);
    SmallLevel(v.errorCorrectionBlocks.high);
    AllLevels(v);
  }
  lemma Row23() ensures WellFormed(Version23()) && Version23().versionNumber == 23 {
    var v := Version23();
    SmallLevel(v.errorCorrectionBlocks.low);
    SmallLevel(v.errorCorrectionBlocks.medium);
    SmallLevel(v.errorCorrectionBlocks.quartile);
    SmallLevel(v.errorCorrectionBlocks.high);
    AllLevels(v);
  }
  lemma Row24() ensures WellFormed(Version24()) && Version24().versionNumber == 24 {
    var v := Version24();
    SmallLevel(v.errorCorrectionBlocks.low);
    SmallLevel(v.errorCorrectionBlocks.medium);
    SmallLevel(v.errorCorrectionBlocks.quartile);
    SmallLevel(v.errorCorrectionBlocks.high);
    AllLevels(v);
  }
  lemma Row25() ensures WellFormed(Version25()) && Version25().versionNumber == 25 {
    var v := Version25();
    SmallLevel(v.errorCorrectionBlocks.low);
    SmallLevel(v.errorCorrectionBlocks.medium);
    SmallLevel(v.errorCorrectionBlocks.quartile);
    SmallLevel(v.errorCorrectionBlocks.high);
    AllLevels(v);
  }
  lemma Row26() ensures WellFormed(Version26()) && Version26().versionNumber == 26 {
    var v := Version26();
    SmallLevel(v.errorCorrectionBlocks.low);
    SmallLevel(v.errorCorrectionBlocks.medium);
    SmallLevel(v.errorCorrectionBlocks.quartile);
    SmallLevel(v.errorCorrectionBlocks.high);
    AllLevels(v);
  }
  lemma Row27() ensures WellFormed(Version27()) && Version27().versionNumber == 27 {
    var v := Version27();
    SmallLevel(v.errorCorrectionBlocks.low);
    SmallLevel(v.errorCorrectionBlocks.medium);
    SmallLevel(v.errorCorrectionBlocks.quartile);
    SmallLevel(v.errorCorrectionBlocks.high);
    AllLevels(v);
  }
  lemma Row28() ensures WellFormed(Version28()) && Version28().versionNumber == 28 {
    var v := Version28();
    SmallLevel(v.errorCorrectionBlocks.low);
    SmallLevel(v.errorCorrectionBlocks.medium);
    SmallLevel(v.errorCorrectionBlocks.quartile);
    SmallLevel(v.errorCorrectionBlocks.high);
    AllLevels(v);
  }
  lemma Row29() ensures WellFormed(Version29()) && Version29().versionNumber == 29 {
    var v := Version29();
    SmallLevel(v.errorCorrectionBlocks.low);
    SmallLevel(v.errorCorrectionBlocks.medium);
    SmallLevel(v.errorCorrectionBlocks.quartile);
    SmallLevel(v.errorCorrectionBlocks.high);
    AllLevels(v);
  }
  lemma Row30() ensures WellFormed(Version30()) && Version30().versionNumber == 30 {
    var v := Version30();
    SmallLevel(v.errorCorrectionBlocks.low);
    SmallLevel(v.errorCorrectionBlocks.medium);
    SmallLevel(v.errorCorrectionBlocks.quartile);
    SmallLevel(v.errorCorrectionBlocks.high);
    AllLevels(v);
  }
  lemma Row31() ensures WellFormed(Version31()) && Version31().versionNumber == 31 {
    var v := Version31();
    SmallLevel(v.errorCorrectionBlocks.low);
    SmallLevel(v.errorCorrectionBlocks.medium);
    SmallLevel(v.errorCorrectionBlocks.quartile);
    SmallLevel(v.errorCorrectionBlocks.high);
    AllLevels(v);
  }
  lemma Row32() ensures WellFormed(Version32()) && Version32().versionNumber == 32 {
    var v := Version32();
    SmallLevel(v.errorCorrectionBlocks.low);
    SmallLevel(v.errorCorrectionBlocks.medium);
    SmallLevel(v.errorCorrectionBlocks.quartile);
    SmallLevel(v.errorCorrectionBlocks.high);
    AllLevels(v);
  }
  lemma Row33() ensures WellFormed(Version33()) && Version33().versionNumber == 33 {
    var v := Version33();
    SmallLevel(v.errorCorrectionBlocks.low);
    SmallLevel(v.errorCorrectionBlocks.medium);
    SmallLevel(v.errorCorrectionBlocks.quartile);
    SmallLevel(v.errorCorrectionBlocks.high);
    AllLevels(v);
  }
  lemma Row34() ensures WellFormed(Version34()) && Version34().versionNumber == 34 {
    var v := Version34();
    SmallLevel(v.errorCorrectionBlocks.low);
    SmallLevel(v.errorCorrectionBlocks.medium);
    SmallLevel(v.errorCorrectionBlocks.quartile);
    SmallLevel(v.errorCorrectionBlocks.high);
    AllLevels(v);
  }
  lemma Row35() ensures WellFormed(Version35()) && Version35().versionNumber == 35 {
    var v := Version35();
    SmallLevel(v.errorCorrectionBlocks.low);
    SmallLevel(v.errorCorrectionBlocks.medium);
    SmallLevel(v.errorCorrectionBlocks.quartile);
    SmallLevel(v.errorCorrectionBlocks.high);
    AllLevels(v);
  }
  lemma Row36() ensures WellFormed(Version36()) && Version36().versionNumber == 36 {
    var v := Version36();
    SmallLevel(v.errorCorrectionBlocks.low);
    SmallLevel(v.errorCorrectionBlocks.medium);
    SmallLevel(v.errorCorrectionBlocks.quartile);
    SmallLevel(v.errorCorrectionBlocks.high);
    AllLevels(v);
  }
  lemma Row37() ensures WellFormed(Version37()) && Version37().versionNumber == 37 {
    var v := Version37();
    SmallLevel(v.errorCorrectionBlocks.low);
    SmallLevel(v.errorCorrectionBlocks.medium);
    SmallLevel(v.errorCorrectionBlocks.quartile);
    SmallLevel(v.errorCorrectionBlocks.high);
    AllLevels(v);
  }
  lemma Row38() ensures WellFormed(Version38()) && Version38().versionNumber == 38 {
    var v := Version38();
    SmallLevel(v.errorCorrectionBlocks.low);
    SmallLevel(v.errorCorrectionBlocks.medium);
    SmallLevel(v.errorCorrectionBlocks.quartile);
    SmallLevel(v.errorCorrectionBlocks.high);
    AllLevels(v);
  }
  lemma Row39() ensures WellFormed(Version39()) && Version39().versionNumber == 39 {
    var v := Version39();
    SmallLevel(v.errorCorrectionBlocks.low);
    SmallLevel(v.errorCorrectionBlocks.medium);
    SmallLevel(v.errorCorrectionBlocks.quartile);
    SmallLevel(v.errorCorrectionBlocks.high);
    AllLevels(v);
  }
  lemma Row40() ensures WellFormed(Version40()) && Version40().versionNumber == 40 {
    var v := Version40();
    SmallLevel(v.errorCorrectionBlocks.low);
    SmallLevel(v.errorCorrectionBlocks.medium);
    SmallLevel(v.errorCorrectionBlocks.quartile);
    SmallLevel(v.errorCorrectionBlocks.high);
    AllLevels(v);
  }

  /** Every row of `Versions` is well formed. */
  lemma RowWellFormed(versionNumber: int)
    requires 1 <= versionNumber <= 40
    ensures WellFormed(VersionAt(versionNumber)) && VersionAt(versionNumber).versionNumber == versionNumber
  {
    if versionNumber <= 10 { RowsFrom1(versionNumber); }
    else if versionNumber <= 20 { RowsFrom11(versionNumber); }
    else if versionNumber <= 30 { RowsFrom21(versionNumber); }
    else { RowsFrom31(versionNumber); }
  }

  /** `RowWellFormed` for versions 1 to 10. */
  lemma RowsFrom1(versionNumber: int)
    requires 1 <= versionNumber <= 10
    ensures WellFormed(VersionAt(versionNumber)) && VersionAt(versionNumber).versionNumber == versionNumber
  {
    match versionNumber
    case 1 => Row1();
    case 2 => Row2();
    case 3 => Row3();
    case 4 => Row4();
    case 5 => Row5();
    case 6 => Row6();
    case 7 => Row7();
    case 8 => Row8();
    case 9 => Row9();
    case 10 => Row10();
  }

  /** `RowWellFormed` for versions 11 to 20. */
  lemma RowsFrom11(versionNumber: int)
    requires 11 <= versionNumber <= 20
    ensures WellFormed(VersionAt(versionNumber)) && VersionAt(versionNumber).versionNumber == versionNumber
  {
    match versionNumber
    case 11 => Row11();
    case 12 => Row12();
    case 13 => Row13();
    case 14 => Row14();
    case 15 => Row15();
    case 16 => Row16();
    case 17 => Row17();
    case 18 => Row18();
    case 19 => Row19();
    case 20 => Row20();
  }

  /** `RowWellFormed` for versions 21 to 30. */
  lemma RowsFrom21(versionNumber: int)
    requires 21 <= versionNumber <= 30
    ensures WellFormed(VersionAt(versionNumber)) && VersionAt(versionNumber).versionNumber == versionNumber
  {
    match versionNumber
    case 21 => Row21();
    case 22 => Row22();
    case 23 => Row23();
    case 24 => Row24();
    case 25 => Row25();
    case 26 => Row26();
    case 27 => Row27();
    case 28 => Row28();
    case 29 => Row29();
    case 30 => Row30();
  }

  /** `RowWellFormed` for versions 31 to 40. */
  lemma RowsFrom31(versionNumber: int)
    requires 31 <= versionNumber <= 40
    ensures WellFormed(VersionAt(versionNumber)) && VersionAt(versionNumber).versionNumber == versionNumber
  {
    match versionNumber
    case 31 => Row31();
    case 32 => Row32();
    case 33 => Row33();
    case 34 => Row34();
    case 35 => Row35();
    case 36 => Row36();
    case 37 => Row37();
    case 38 => Row38();
    case 39 => Row39();
    case 40 => Row40();
  }

  /** Every row is well formed: every level has blocks and data, and the
      level that `init` sums does not change `totalCodewords`. */
  lemma TableWellFormed(versionNumber: int)
    requires 1 <= versionNumber <= 40
    ensures WellFormed(VersionAt(versionNumber)) && VersionAt(versionNumber).versionNumber == versionNumber
    ensures forall level :: InitTotal(VersionAt(versionNumber).errorCorrectionBlocks, level) == VersionAt(versionNumber).totalCodewords
    ensures forall level :: TotalBlockCount(Blocks(VersionAt(versionNumber), level)) > 0
    ensures var v := VersionAt(versionNumber);
      v == MakeVersion(versionNumber, v.alignmentPatternCenters, v.errorCorrectionBlocks)
  {
    RowWellFormed(versionNumber);
    var v := VersionAt(versionNumber);
    LevelFacts(v, L);
    forall level
      ensures InitTotal(v.errorCorrectionBlocks, level) == v.totalCodewords
      ensures TotalBlockCount(Blocks(v, level)) > 0
    {
      LevelFacts(v, level);
    }
  }

  /** The facts of `WellFormed` about one level. */
  lemma LevelFacts(v: Version, level: ErrorCorrectionLevel)
    requires WellFormed(v)
    ensures LevelWellFormed(Blocks(v, level), v.totalCodewords)
    ensures TotalBlockCount(Blocks(v, level)) > 0 && DataSum(Blocks(v, level).ecBlocks) > 0
    ensures InitTotal(v.errorCorrectionBlocks, level) == v.totalCodewords
  {
    PositiveSums(Blocks(v, level).ecBlocks);
  }

  // ---------------------------------------------------------------------
  // Looking versions up

  /** `lookupVersion(versionNumber:)`. */
  function LookupVersion(versionNumber: int): (r: Result<Version>)
    ensures r.Ok? <==> MinVersionNumber <= versionNumber <= MaxVersionNumber
    ensures r.Err? ==> r.error == IllegalArgument
    ensures r.Ok? ==> r.value.versionNumber == versionNumber && WellFormed(r.value)
    ensures r.Ok? ==> r.value == VersionAt(versionNumber)
  {
    if !(MinVersionNumber <= versionNumber <= MaxVersionNumber) then Err(IllegalArgument)
    else
      TableWellFormed(versionNumber);
      Ok(VersionAt(versionNumber))
  }

  /** `getProvisionalVersion(dimension:)`: the version whose symbol has
      side `dimension`; Swift's `%` and `/` truncate toward zero. */
  function GetProvisionalVersion(dimension: int): (r: Result<Version>)
    ensures SwiftRem(dimension, 4) != 1 ==> r == Err(InvalidFormat)
    ensures r.Err? ==> r.error == InvalidFormat
    ensures r.Ok? ==> Dimension(r.value) == dimension && WellFormed(r.value)
  {
    if SwiftRem(dimension, 4) != 1 then Err(InvalidFormat)
    else
      var versionNumber := SwiftDiv(dimension - 17, 4);
      match LookupVersion(versionNumber)
      case Err(_) => Err(InvalidFormat)
      case Ok(v) =>
        ProvisionalDimension(dimension);
        Ok(v)
  }

  /** A dimension that passes the checks is `17 + 4 * versionNumber`. */
  lemma ProvisionalDimension(dimension: int)
    requires SwiftRem(dimension, 4) == 1 && SwiftDiv(dimension - 17, 4) >= 1
    ensures dimension == 17 + 4 * SwiftDiv(dimension - 17, 4)
  {
    var q := SwiftDiv(dimension - 17, 4);
    assert dimension - 17 >= 0;
    assert dimension % 4 == 1;
    DivModUnique(dimension - 17, 4, (dimension - 17) / 4, 0) by {
      assert dimension == 4 * (dimension / 4) + 1;
      assert dimension - 17 == 4 * ((dimension - 17) / 4) + (dimension - 17) % 4;
    }
  }

  /** Every version is found again from its dimension. */
  lemma ProvisionalVersionOfDimension(versionNumber: int)
    requires MinVersionNumber <= versionNumber <= MaxVersionNumber
    ensures GetProvisionalVersion(17 + 4 * versionNumber) == Ok(VersionAt(versionNumber))
  {
    var d := 17 + 4 * versionNumber;
    DivModUnique(d, 4, 4 + versionNumber, 1);
    DivModUnique(d - 17, 4, versionNumber, 0);
    assert SwiftRem(d, 4) == 1 && SwiftDiv(d - 17, 4) == versionNumber;
    assert LookupVersion(versionNumber) == Ok(VersionAt(versionNumber));
  }

  // ---------------------------------------------------------------------
  // Capacity

  /** `maxDataBytesSupported(errorCorrectionLevel:)`: the codewords left
      for data once the EC bytes are taken, which for a row of the table
      is the sum of its data blocks. */
  function MaxDataBytes(v: Version, level: ErrorCorrectionLevel): (r: int)
  {
    v.totalCodewords - TotalECCodewords(Blocks(v, level))
  }

  /** `maxDataBitsSupported(errorCorrectionLevel:)`. */
  function MaxDataBits(v: Version, level: ErrorCorrectionLevel): int
  {
    MaxDataBytes(v, level) * 8
  }

  /** In a row of the table the data capacity is the sum of the data
      blocks: positive, and a whole number of bytes in bits. */
  lemma MaxDataIsDataSum(v: Version, level: ErrorCorrectionLevel)
    requires WellFormed(v)
    ensures MaxDataBytes(v, level) == DataSum(Blocks(v, level).ecBlocks) > 0
    ensures MaxDataBits(v, level) == 8 * MaxDataBytes(v, level)
  {
    LevelFacts(v, level);
  }

  /** `willSupportEncoding(mode:errorCorrectionLevel:header:data:)`: the
      character count, header and data, rounded up to a whole byte, fit
      the data capacity. */
  predicate WillSupportEncoding(v: Version, mode: Modes.Mode, level: ErrorCorrectionLevel, header: seq<bool>, data: seq<bool>)
  {
    Modes.CharacterCountBits(mode, v.versionNumber) + |header| + |data| + 7 <= MaxDataBits(v, level)
  }

  /** `first(where: willSupportEncoding)`: the index of the first row that
      supports the content, or -1. */
  function FirstSupportedIndex(rows: seq<Version>, mode: Modes.Mode, level: ErrorCorrectionLevel,
                               header: seq<bool>, data: seq<bool>): (i: int)
    ensures -1 <= i < |rows|
    ensures i >= 0 ==> WillSupportEncoding(rows[i], mode, level, header, data)
    ensures i >= 0 ==> forall j :: 0 <= j < i ==> !WillSupportEncoding(rows[j], mode, level, header, data)
    ensures i == -1 ==> forall j :: 0 <= j < |rows| ==> !WillSupportEncoding(rows[j], mode, level, header, data)
  {
    if rows == [] then -1
    else if WillSupportEncoding(rows[0], mode, level, header, data) then 0
    else
      var i := FirstSupportedIndex(rows[1..], mode, level, header, data);
      assert forall j :: 1 <= j < |rows| ==> rows[j] == rows[1..][j - 1];
      if i == -1 then -1 else i + 1
  }

  /** No row numbered strictly between lo and hi supports the content. */
  predicate NoneSupports(lo: int, hi: int, mode: Modes.Mode, level: ErrorCorrectionLevel, header: seq<bool>, data: seq<bool>)
  {
    forall n :: lo < n < hi && MinVersionNumber <= n <= MaxVersionNumber ==>
      !WillSupportEncoding(VersionAt(n), mode, level, header, data)
  }

  /** `lookupSupportedVersion(requestedVersion:mode:errorCorrectionLevel:header:data:)`:
      the lowest version after the requested one, or from version 1 when
      none is requested, that supports the content. `suffix(from:)` traps
      past the end of the table, hence the requirement. */
  function LookupSupportedVersion(requestedVersion: Option<Version>, mode: Modes.Mode, level: ErrorCorrectionLevel,
                                  header: seq<bool>, data: seq<bool>): Option<Version>
    requires requestedVersion.Some? ==> 0 <= requestedVersion.value.versionNumber <= |Versions()|
  {
    var minVersionNumber := if requestedVersion.Some? then requestedVersion.value.versionNumber else 0;
    var candidates := Versions()[minVersionNumber..];
    var i := FirstSupportedIndex(candidates, mode, level, header, data);
    if i == -1 then None else Some(candidates[i])
  }

  /** The search yields the lowest-numbered version after the requested
      one (after none: from version 1) that supports the content, or
      nothing when no later version does. */
  lemma SupportedVersionIsLowest(requestedVersion: Option<Version>, mode: Modes.Mode, level: ErrorCorrectionLevel,
                                 header: seq<bool>, data: seq<bool>)
    requires requestedVersion.Some? ==> 0 <= requestedVersion.value.versionNumber <= |Versions()|
    ensures var from := if requestedVersion.Some? then requestedVersion.value.versionNumber else 0;
      var r := LookupSupportedVersion(requestedVersion, mode, level, header, data);
      && (r.Some? ==> from < r.value.versionNumber <= MaxVersionNumber && r.value == VersionAt(r.value.versionNumber)
                      && WellFormed(r.value) && WillSupportEncoding(r.value, mode, level, header, data))
      && (r.Some? ==> NoneSupports(from, r.value.versionNumber, mode, level, header, data))
      && (r.None? ==> NoneSupports(from, MaxVersionNumber + 1, mode, level, header, data))
  {
    var from := if requestedVersion.Some? then requestedVersion.value.versionNumber else 0;
    SuffixSearch(from, mode, level, header, data);
  }

  /** The search over `Versions.suffix(from:)`: the row it finds is the
      lowest-numbered row after `from` that supports the content; finding
      none means no row after `from` does. */
  lemma SuffixSearch(from: int, mode: Modes.Mode, level: ErrorCorrectionLevel, header: seq<bool>, data: seq<bool>)
    requires 0 <= from <= |Versions()|
    ensures var rows := Versions()[from..];
      var i := FirstSupportedIndex(rows, mode, level, header, data);
      && (i >= 0 ==>
            var v := rows[i];
            && from < v.versionNumber <= MaxVersionNumber && v == VersionAt(v.versionNumber)
            && WellFormed(v) && WillSupportEncoding(v, mode, level, header, data)
            && NoneSupports(from, v.versionNumber, mode, level, header, data))
      && (i == -1 ==> NoneSupports(from, MaxVersionNumber + 1, mode, level, header, data))
  {
    var rows := Versions()[from..];
    var i := FirstSupportedIndex(rows, mode, level, header, data);
    if i >= 0 {
      var last := from + i + 1;
      RowInSuffix(from, last);
      SkippedRows(from, last, mode, level, header, data);
    } else {
      SkippedRows(from, MaxVersionNumber + 1, mode, level, header, data);
    }
  }

  /** Rows of `Versions.suffix(from:)` before entry last - from - 1 that do
      not support the content are rows after `from` and before `last` that
      do not. */
  lemma SkippedRows(from: int, last: int, mode: Modes.Mode, level: ErrorCorrectionLevel, header: seq<bool>,
                    data: seq<bool>)
    requires 0 <= from < last <= MaxVersionNumber + 1 && |Versions()| == MaxVersionNumber
    requires forall j :: 0 <= j < last - from - 1 ==>
      !WillSupportEncoding(Versions()[from..][j], mode, level, header, data)
    ensures NoneSupports(from, last, mode, level, header, data)
  {
    forall n | from < n < last
      ensures !WillSupportEncoding(VersionAt(n), mode, level, header, data)
    {
      RowInSuffix(from, n);
    }
  }

  /** Row k is entry k - from - 1 of `Versions.suffix(from:)`, numbered k
      and well formed. */
  lemma RowInSuffix(from: int, k: int)
    requires 0 <= from < k <= 40
    ensures Versions()[from..][k - from - 1] == VersionAt(k)
    ensures VersionAt(k).versionNumber == k && WellFormed(VersionAt(k))
  {
    VersionsAt(k);
    assert Versions()[from..][k - from - 1] == Versions()[k - 1];
    RowWellFormed(k);
  }

  /** The search as the documentation of `lookupSupportedVersion` states
      it: from the requested version itself (from version 1 when none is
      requested). The table is indexed from 0, so the requested row is
      entry versionNumber - 1. */
  function IntendedLookupSupportedVersion(requestedVersion: Option<Version>, mode: Modes.Mode,
                                          level: ErrorCorrectionLevel, header: seq<bool>, data: seq<bool>)
    : Option<Version>
    requires requestedVersion.Some? ==> 1 <= requestedVersion.value.versionNumber <= |Versions()|
  {
    var first := if requestedVersion.Some? then requestedVersion.value.versionNumber - 1 else 0;
    var candidates := Versions()[first..];
    var i := FirstSupportedIndex(candidates, mode, level, header, data);
    if i == -1 then None else Some(candidates[i])
  }

  /** The intended search yields the lowest-numbered version at or after
      the requested one (numbered above `first`, the requested row's index
      in the table) that supports the content, or nothing when none does. */
  lemma IntendedSupportedVersionIsLowest(requestedVersion: Option<Version>, mode: Modes.Mode,
                                         level: ErrorCorrectionLevel, header: seq<bool>, data: seq<bool>)
    requires requestedVersion.Some? ==> 1 <= requestedVersion.value.versionNumber <= |Versions()|
    ensures var first := if requestedVersion.Some? then requestedVersion.value.versionNumber - 1 else 0;
      var r := IntendedLookupSupportedVersion(requestedVersion, mode, level, header, data);
      && (r.Some? ==> first < r.value.versionNumber <= MaxVersionNumber && r.value == VersionAt(r.value.versionNumber)
                      && WellFormed(r.value) && WillSupportEncoding(r.value, mode, level, header, data))
      && (r.Some? ==> NoneSupports(first, r.value.versionNumber, mode, level, header, data))
      && (r.None? ==> NoneSupports(first, MaxVersionNumber + 1, mode, level, header, data))
  {
    var first := if requestedVersion.Some? then requestedVersion.value.versionNumber - 1 else 0;
    SuffixSearch(first, mode, level, header, data);
  }

  /** As written, the search never returns the requested row: when that
      row holds the content, the intended search returns it and the
      search as written a later one or nothing. */
  lemma LookupSkipsRequestedAsWritten(v: Version, mode: Modes.Mode, level: ErrorCorrectionLevel,
                                      header: seq<bool>, data: seq<bool>)
    requires MinVersionNumber <= v.versionNumber <= MaxVersionNumber && v == Versions()[v.versionNumber - 1]
    requires WillSupportEncoding(v, mode, level, header, data)
    ensures IntendedLookupSupportedVersion(Some(v), mode, level, header, data) == Some(v)
    ensures var r := LookupSupportedVersion(Some(v), mode, level, header, data);
      r.Some? ==> r.value.versionNumber > v.versionNumber
  {
    assert Versions()[v.versionNumber - 1..][0] == v;
    SupportedVersionIsLowest(Some(v), mode, level, header, data);
  }

  /** The intended search agrees with the search as written wherever the
      requested row does not hold the content, and when none is requested. */
  lemma IntendedSearchAfterRequested(requestedVersion: Option<Version>, mode: Modes.Mode,
                                     level: ErrorCorrectionLevel, header: seq<bool>, data: seq<bool>)
    requires requestedVersion.Some? ==>
      MinVersionNumber <= requestedVersion.value.versionNumber <= MaxVersionNumber &&
      requestedVersion.value == Versions()[requestedVersion.value.versionNumber - 1] &&
      !WillSupportEncoding(requestedVersion.value, mode, level, header, data)
    ensures IntendedLookupSupportedVersion(requestedVersion, mode, level, header, data) ==
            LookupSupportedVersion(requestedVersion, mode, level, header, data)
  {
    if requestedVersion.Some? {
      var n := requestedVersion.value.versionNumber;
      SearchPastHead(Versions(), n - 1, mode, level, header, data);
    }
  }

  /** Searching from row k whose first entry does not hold the content
      finds what searching from row k + 1 finds. */
  lemma SearchPastHead(rows: seq<Version>, k: nat, mode: Modes.Mode, level: ErrorCorrectionLevel,
                       header: seq<bool>, data: seq<bool>)
    requires k < |rows| && !WillSupportEncoding(rows[k], mode, level, header, data)
    ensures var from, after := rows[k..], rows[k + 1..];
      var i, j := FirstSupportedIndex(from, mode, level, header, data), FirstSupportedIndex(after, mode, level, header, data);
      (i == -1 <==> j == -1) && (i != -1 ==> from[i] == after[j])
  {
    var from, after := rows[k..], rows[k + 1..];
    assert from[1..] == after;
  }

  /** Entry n - 1 of `Versions` is row n. */
  lemma VersionsAt(n: int)
    requires 1 <= n <= 40
    ensures Versions()[n - 1] == VersionAt(n)
  {
    VersionsUpToAt(40, n);
  }

  /** Entry k - 1 of `VersionsUpTo(n)` is row k. */
  lemma {:induction false} VersionsUpToAt(n: nat, k: int)
    requires 1 <= k <= n <= 40
    ensures VersionsUpTo(n)[k - 1] == VersionAt(k)
  {
    if k == n {
      VersionsUpToLast(n);
    } else {
      VersionsUpToAt(n - 1, k);
      VersionsUpToStep(n, k - 1);
      EqualTrans(VersionsUpTo(n)[k - 1], VersionsUpTo(n - 1)[k - 1], VersionAt(k));
    }
  }

  lemma EqualTrans<T>(a: T, b: T, c: T)
    requires a == b && b == c
    ensures a == c
  {
  }

  /** The last entry of `VersionsUpTo(n)` is row n. */
  lemma VersionsUpToLast(n: nat)
    requires 1 <= n <= 40
    ensures VersionsUpTo(n)[n - 1] == VersionAt(n)
  {
  }

  /** `VersionsUpTo(n)` keeps the entries of `VersionsUpTo(n - 1)`. */
  lemma VersionsUpToStep(n: nat, i: int)
    requires 0 <= i < n - 1 && n <= 40
    ensures VersionsUpTo(n)[i] == VersionsUpTo(n - 1)[i]
  {
  }

  /** `getErrorCorrectionCapacity(blockId:errorCorrectionLevel:)`: the data
      and EC bytes of one block when the codewords are split into blocks
      of two sizes one byte apart, with its three consistency checks. */
  function GetErrorCorrectionCapacity(v: Version, blockId: int, level: ErrorCorrectionLevel): (r: Result<(int, int)>)
    ensures r.Err? <==> blockId < 0 || blockId >= TotalBlockCount(Blocks(v, level))
    ensures r.Err? ==> r.error == IllegalArgument
  {
    var numTotalBytes := v.totalCodewords;
    var numDataBytes := MaxDataBytes(v, level);
    var numReedSolomonBlocks := TotalBlockCount(Blocks(v, level));
    if blockId < 0 || blockId >= numReedSolomonBlocks then Err(IllegalArgument)
    else
      var numRSBlocksGroup2 := SwiftRem(numTotalBytes, numReedSolomonBlocks);
      var numRSBlocksGroup1 := numReedSolomonBlocks - numRSBlocksGroup2;
      var numTotalBytesGroup1 := SwiftDiv(numTotalBytes, numReedSolomonBlocks);
      var numTotalBytesGroup2 := numTotalBytesGroup1 + 1;
      var numDataBytesGroup1 := SwiftDiv(numDataBytes, numReedSolomonBlocks);
      var numDataBytesGroup2 := numDataBytesGroup1 + 1;
      var numECBytesGroup1 := numTotalBytesGroup1 - numDataBytesGroup1;
      var numECBytesGroup2 := numTotalBytesGroup2 - numDataBytesGroup2;
      var calculatedTotalBytes := (numDataBytesGroup1 + numECBytesGroup1) * numRSBlocksGroup1
                                + (numDataBytesGroup2 + numECBytesGroup2) * numRSBlocksGroup2;
      assert calculatedTotalBytes == numTotalBytesGroup1 * numReedSolomonBlocks + numRSBlocksGroup2 by {
        assert numTotalBytesGroup1 * numRSBlocksGroup1 + (numTotalBytesGroup1 + 1) * numRSBlocksGroup2
            == numTotalBytesGroup1 * (numRSBlocksGroup1 + numRSBlocksGroup2) + numRSBlocksGroup2;
      }
      if numECBytesGroup1 != numECBytesGroup2 then Err(Unspecified)
      else if numReedSolomonBlocks != numRSBlocksGroup1 + numRSBlocksGroup2 then Err(Unspecified)
      else if numTotalBytes != calculatedTotalBytes then Err(Unspecified)
      else if blockId < numRSBlocksGroup1 then Ok((numDataBytesGroup1, numECBytesGroup1))
      else Ok((numDataBytesGroup2, numECBytesGroup2))
  }


  /** In a row of the table every block gets `ecCodewordsPerBlock` EC
      bytes, and the first `blocks - totalCodewords % blocks` blocks hold
      one data byte fewer than the others. */
  lemma CapacityOfBlock(v: Version, blockId: int, level: ErrorCorrectionLevel)
    requires WellFormed(v)
    requires 0 <= blockId < TotalBlockCount(Blocks(v, level))
    ensures var blocks := TotalBlockCount(Blocks(v, level));
      var dataBytes := MaxDataBytes(v, level);
      GetErrorCorrectionCapacity(v, blockId, level) ==
        Ok((if blockId < blocks - v.totalCodewords % blocks then dataBytes / blocks else dataBytes / blocks + 1,
            Blocks(v, level).ecCodewordsPerBlock))
  {
    LevelFacts(v, level);
    MaxDataIsDataSum(v, level);
    SplitArithmetic(v.totalCodewords, MaxDataBytes(v, level), TotalBlockCount(Blocks(v, level)), Blocks(v, level).ecCodewordsPerBlock);
  }

  /** With `total == data + ec * blocks`, the totals split into blocks as
      the data does, shifted by `ec`. */
  lemma SplitArithmetic(total: int, data: int, blocks: int, ec: int)
    requires data > 0 && blocks > 0 && ec > 0 && total == data + ec * blocks
    ensures total / blocks == data / blocks + ec
    ensures total % blocks == data % blocks
  {
    DivModUnique(total, blocks, data / blocks + ec, data % blocks);
  }

  /** The data bytes of the first n blocks. */
  function DataCapacitySum(v: Version, level: ErrorCorrectionLevel, n: int): int
    requires 0 <= n <= TotalBlockCount(Blocks(v, level))
  {
    if n == 0 then 0
    else DataCapacitySum(v, level, n - 1) + GetErrorCorrectionCapacity(v, n - 1, level).value.0
  }

  /** Over all blocks the data capacities add up to
      `maxDataBytesSupported`. */
  lemma DataCapacitiesSum(v: Version, level: ErrorCorrectionLevel)
    requires WellFormed(v)
    ensures var blocks := TotalBlockCount(Blocks(v, level));
      blocks > 0 && DataCapacitySum(v, level, blocks) == MaxDataBytes(v, level)
  {
    var blocks := TotalBlockCount(Blocks(v, level));
    var dataBytes := MaxDataBytes(v, level);
    LevelFacts(v, level);
    MaxDataIsDataSum(v, level);
    SplitArithmetic(v.totalCodewords, dataBytes, blocks, Blocks(v, level).ecCodewordsPerBlock);
    DataCapacityPrefix(v, level, blocks);
    RegroupArithmetic(dataBytes, blocks, v.totalCodewords % blocks);
  }

  /** Rebuilding `data` from its quotient and remainder by `blocks`. */
  lemma RegroupArithmetic(data: int, blocks: int, group2: int)
    requires blocks > 0 && group2 == data % blocks
    ensures data / blocks * blocks + (if blocks > blocks - group2 then blocks - (blocks - group2) else 0) == data
  {
  }

  /** The first n blocks hold `data / blocks` bytes each, plus one for each
      block past the first group. */
  lemma {:induction false} DataCapacityPrefix(v: Version, level: ErrorCorrectionLevel, n: int)
    requires WellFormed(v)
    requires 0 <= n <= TotalBlockCount(Blocks(v, level))
    ensures var blocks := TotalBlockCount(Blocks(v, level));
      blocks > 0 &&
      var group1 := blocks - v.totalCodewords % blocks;
      DataCapacitySum(v, level, n) == MaxDataBytes(v, level) / blocks * n + (if n > group1 then n - group1 else 0)
  {
    LevelFacts(v, level);
    if n > 0 {
      var blocks := TotalBlockCount(Blocks(v, level));
      var group1 := blocks - v.totalCodewords % blocks;
      var perBlock := MaxDataBytes(v, level) / blocks;
      DataCapacityPrefix(v, level, n - 1);
      CapacityOfBlock(v, n - 1, level);
      assert perBlock * n == perBlock * (n - 1) + perBlock;
    }
  }

  // ---------------------------------------------------------------------
  // Decoding the version word

  /** `VersionDecodeTable`: the 18-bit version words of versions 7 to 40
      (Annex D, Table D.1), each with its version number minus 7. */
  const VersionDecodeTable: seq<Entry> := [
    Entry(0x07C94, 0x00),
    Entry(0x085BC, 0x01),
    Entry(0x09A99, 0x02),
    Entry(0x0A4D3, 0x03),
    Entry(0x0BBF6, 0x04),
    Entry(0x0C762, 0x05),
    Entry(0x0D847, 0x06),
    Entry(0x0E60D, 0x07),
    Entry(0x0F928, 0x08),
    Entry(0x10B78, 0x09),
    Entry(0x1145D, 0x0A),
    Entry(0x12A17, 0x0B),
    Entry(0x13532, 0x0C),
    Entry(0x149A6, 0x0D),
    Entry(0x15683, 0x0E),
    Entry(0x168C9, 0x0F),
    Entry(0x177EC, 0x10),
    Entry(0x18EC4, 0x11),
    Entry(0x191E1, 0x12),
    Entry(0x1AFAB, 0x13),
    Entry(0x1B08E, 0x14),
    Entry(0x1CC1A, 0x15),
    Entry(0x1D33F, 0x16),
    Entry(0x1ED75, 0x17),
    Entry(0x1F250, 0x18),
    Entry(0x209D5, 0x19),
    Entry(0x216F0, 0x1A),
    Entry(0x228BA, 0x1B),
    Entry(0x2379F, 0x1C),
    Entry(0x24B0B, 0x1D),
    Entry(0x2542E, 0x1E),
    Entry(0x26A64, 0x1F),
    Entry(0x27541, 0x20),
    Entry(0x28C69, 0x21)
  ]

  /** The row of each version word, read off the table. */
  function VersionDecodeRow(lookupId: int): int
  {
    match lookupId
    case 0x07C94 => 0
    case 0x085BC => 1
    case 0x09A99 => 2
    case 0x0A4D3 => 3
    case 0x0BBF6 => 4
    case 0x0C762 => 5
    case 0x0D847 => 6
    case 0x0E60D => 7
    case 0x0F928 => 8
    case 0x10B78 => 9
    case 0x1145D => 10
    case 0x12A17 => 11
    case 0x13532 => 12
    case 0x149A6 => 13
    case 0x15683 => 14
    case 0x168C9 => 15
    case 0x177EC => 16
    case 0x18EC4 => 17
    case 0x191E1 => 18
    case 0x1AFAB => 19
    case 0x1B08E => 20
    case 0x1CC1A => 21
    case 0x1D33F => 22
    case 0x1ED75 => 23
    case 0x1F250 => 24
    case 0x209D5 => 25
    case 0x216F0 => 26
    case 0x228BA => 27
    case 0x2379F => 28
    case 0x24B0B => 29
    case 0x2542E => 30
    case 0x26A64 => 31
    case 0x27541 => 32
    case 0x28C69 => 33
    case _ => -1
  }

  /** Row i holds the value i, the words are distinct and fit in 18 bits. */
  lemma VersionDecodeTableShape()
    ensures |VersionDecodeTable| == 34
    ensures forall i :: 0 <= i < 34 ==> VersionDecodeTable[i].value == i
    ensures forall i :: 0 <= i < 34 ==> VersionDecodeRow(VersionDecodeTable[i].lookupId) == i
    ensures forall i :: 0 <= i < 34 ==> 0 <= VersionDecodeTable[i].lookupId < 0x40000
    ensures forall i, j :: 0 <= i < j < 34 ==> VersionDecodeTable[i].lookupId != VersionDecodeTable[j].lookupId
  {
    forall i | 0 <= i < 34
      ensures VersionDecodeTable[i].value == i && VersionDecodeRow(VersionDecodeTable[i].lookupId) == i
      ensures 0 <= VersionDecodeTable[i].lookupId < 0x40000
    {
    }
  }

  /** The lookup step of `decode(versionInfo:)`: the chosen entry's value
      plus 7 is a version number of a symbol with version information. */
  function VersionOfEntry(entry: Option<Entry>): (r: Result<Option<Version>>)
    ensures entry.None? ==> r == Ok(None)
    ensures entry.Some? && 0 <= entry.value.value < 34 ==> r == Ok(Some(VersionAt(entry.value.value + 7)))
  {
    match entry
    case None => Ok(None)
    case Some(e) =>
      match LookupVersion(e.value + 7)
      case Err(error) => Err(error)
      case Ok(v) => Ok(Some(v))
  }

  /** The result of `decode(versionInfo:)`. The lookup cannot throw, and a
      decoded version always carries version information. */
  function DecodeVersionResult(versionInfo: int): (r: Result<Option<Version>>)
    ensures r.Ok?
    ensures r.Ok? && r.value.Some? ==> WellFormed(r.value.value) && SupportsEncoding(r.value.value)
  {
    var entry := DecodeEntry(VersionDecodeTable, versionInfo, versionInfo, VersionInfoDecodeTolerance);
    DecodeEntryInTable(VersionDecodeTable, versionInfo, versionInfo, VersionInfoDecodeTolerance);
    VersionDecodeTableShape();
    if entry.Some? then
      TableWellFormed(entry.value.value + 7);
      VersionOfEntry(entry)
    else
      VersionOfEntry(entry)
  }

  /** The search loop of `decode(versionInfo:)`: stop at the first exact
      match, otherwise track the first nearest word and accept it within
      the tolerance. */
  method NearestVersionEntry(table: seq<Entry>, versionInfo: int, tolerance: int) returns (result: Option<Entry>)
    ensures result == DecodeEntry(table, versionInfo, versionInfo, tolerance)
  {
    result := None;
    var bestMatch := BestMatch(IntMax, Entry(0, 0));
    var i := 0;
    while i < |table|
      invariant 0 <= i <= |table|
      invariant result.None? && bestMatch == BestUpTo(table, versionInfo, versionInfo, i)
      invariant forall j :: 0 <= j < i ==> !Exact(table[j], versionInfo, versionInfo)
    {
      var entry := table[i];
      if entry.lookupId == versionInfo {
        result := Some(entry);
        FirstExactAt(table, versionInfo, versionInfo, i);
        break;
      }
      var weight := DifferentBitCount(versionInfo, entry.lookupId);
      if weight < bestMatch.weight {
        bestMatch := BestMatch(weight, entry);
      }
      i := i + 1;
    }
    if result.None? && bestMatch.weight <= tolerance {
      result := Some(bestMatch.entry);
    }
  }

  /** `decode(versionInfo:)`: the version `rawVersionNumber + 7` of the
      entry the search picks in the version table. */
  method DecodeVersion(versionInfo: int) returns (r: Result<Option<Version>>)
    ensures r == DecodeVersionResult(versionInfo)
  {
    var entry := NearestVersionEntry(VersionDecodeTable, versionInfo, VersionInfoDecodeTolerance);
    r := VersionOfEntry(entry);
  }

  /** The word of a version decodes to that version. */
  lemma DecodeVersionExact(versionNumber: int)
    requires 7 <= versionNumber <= MaxVersionNumber
    ensures DecodeVersionResult(VersionDecodeTable[versionNumber - 7].lookupId) == Ok(Some(VersionAt(versionNumber)))
  {
    VersionDecodeTableShape();
    var word := VersionDecodeTable[versionNumber - 7].lookupId;
    FirstExactAt(VersionDecodeTable, word, word, versionNumber - 7);
    var entry := DecodeEntry(VersionDecodeTable, word, word, VersionInfoDecodeTolerance);
    assert entry == Some(VersionDecodeTable[versionNumber - 7]);
    assert DecodeVersionResult(word) == VersionOfEntry(entry);
  }

  /** A word that is no table word decodes to the version of the first
      nearest table word when that is within 3 bits, and to nothing
      otherwise. */
  lemma DecodeVersionNearest(versionInfo: int)
    requires IsInt64(versionInfo)
    requires forall i :: 0 <= i < |VersionDecodeTable| ==> VersionDecodeTable[i].lookupId != versionInfo
    ensures var k := FirstMinimum(VersionDecodeTable, versionInfo, versionInfo, |VersionDecodeTable|);
      DecodeVersionResult(versionInfo) ==
        if DifferentBitCount(versionInfo, VersionDecodeTable[k].lookupId) <= VersionInfoDecodeTolerance
        then Ok(Some(VersionAt(k + 7)))
        else Ok(None)
  {
    VersionDecodeTableShape();
    NearestVersionIn(VersionDecodeTable, versionInfo);
  }

  /** `DecodeVersionNearest` for any table laid out like the version table. */
  lemma NearestVersionIn(table: seq<Entry>, versionInfo: int)
    requires IsInt64(versionInfo)
    requires |table| == 34
    requires forall i :: 0 <= i < |table| ==> table[i].value == i
    requires forall i :: 0 <= i < |table| ==> 0 <= table[i].lookupId < 0x40000
    requires forall i :: 0 <= i < |table| ==> table[i].lookupId != versionInfo
    ensures var k := FirstMinimum(table, versionInfo, versionInfo, |table|);
      VersionOfEntry(DecodeEntry(table, versionInfo, versionInfo, VersionInfoDecodeTolerance)) ==
        if DifferentBitCount(versionInfo, table[k].lookupId) <= VersionInfoDecodeTolerance
        then Ok(Some(VersionAt(k + 7)))
        else Ok(None)
  {
    assert forall i :: 0 <= i < |table| ==> IsInt64(table[i].lookupId);
    assert FirstExact(table, versionInfo, versionInfo) == -1;
    NearestEntry(table, versionInfo, versionInfo, VersionInfoDecodeTolerance);
  }
}
