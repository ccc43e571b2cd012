// At levels L and M every block of every version holds more data bytes
// than its EC count plus one, and the first byte of a stream is never
// zero: the one-round division of ZXReedSolomonEncoder.encode then never
// ends, so `encode` completes only at levels Q and H.

module EncodeDivergence {
  import opened Bits
  import opened Errors
  import opened Modes
  import opened CharacterSetEci
  import opened ErrorCorrectionLevels
  import opened QRVersions
  import opened GenericGF
  import opened GenericGFPoly
  import opened ReedSolomon
  import opened BlockInterleaving
  import opened EncoderSegments
  import opened QREncoder
  import EncoderBlocks

  // ---------------------------------------------------------------------
  // The table at levels L and M

  /** A level of one group, or of two groups the second of which holds one
      data byte more, whose first group is longer than its EC count plus
      one. */
  predicate LongFirstGroup(b: ECBlocks)
  {
    var g := b.ecBlocks;
    && 1 <= |g| <= 2
    && g[0].dataCodewords > b.ecCodewordsPerBlock + 1
    && (|g| == 2 ==> g[1].dataCodewords == g[0].dataCodewords + 1)
  }

  /** Levels L and M of a row both have long first groups. */
  predicate LongAtLowAndMedium(v: Version)
  {
    LongFirstGroup(Blocks(v, L)) && LongFirstGroup(Blocks(v, M))
  }

  /** A version that is row `versionNumber` of the table. */
  predicate TableRow(v: Version)
  {
    1 <= v.versionNumber <= 40 && v == VersionAt(v.versionNumber)
  }

  /** Every row of the table has long blocks at levels L and M. */
  lemma LongRow(versionNumber: int)
    requires 1 <= versionNumber <= 40
    ensures LongAtLowAndMedium(VersionAt(versionNumber))
  {
    if versionNumber <= 10 { LongRowsFrom1(versionNumber); }
    else if versionNumber <= 20 { LongRowsFrom11(versionNumber); }
    else if versionNumber <= 30 { LongRowsFrom21(versionNumber); }
    else { LongRowsFrom31(versionNumber); }
  }

  /** `LongRow` for versions 1 to 10. */
  lemma LongRowsFrom1(versionNumber: int)
    requires 1 <= versionNumber <= 10
    ensures LongAtLowAndMedium(VersionAt(versionNumber))
  {
    match versionNumber
    case 1 => case 2 => case 3 => case 4 => case 5 =>
    case 6 => case 7 => case 8 => case 9 => case 10 =>
  }

  /** `LongRow` for versions 11 to 20. */
  lemma LongRowsFrom11(versionNumber: int)
    requires 11 <= versionNumber <= 20
    ensures LongAtLowAndMedium(VersionAt(versionNumber))
  {
    match versionNumber
    case 11 => case 12 => case 13 => case 14 => case 15 =>
    case 16 => case 17 => case 18 => case 19 => case 20 =>
  }

  /** `LongRow` for versions 21 to 30. */
  lemma LongRowsFrom21(versionNumber: int)
    requires 21 <= versionNumber <= 30
    ensures LongAtLowAndMedium(VersionAt(versionNumber))
  {
    match versionNumber
    case 21 => case 22 => case 23 => case 24 => case 25 =>
    case 26 => case 27 => case 28 => case 29 => case 30 =>
  }

  /** `LongRow` for versions 31 to 40. */
  lemma LongRowsFrom31(versionNumber: int)
    requires 31 <= versionNumber <= 40
    ensures LongAtLowAndMedium(VersionAt(versionNumber))
  {
    match versionNumber
    case 31 => case 32 => case 33 => case 34 => case 35 =>
    case 36 => case 37 => case 38 => case 39 => case 40 =>
  }

  /** In a level of one group, or of two groups the second of which is one
      byte longer, the first block holds as many data bytes as the first
      group says. */
  lemma FirstBlockSize(v: Version, level: ErrorCorrectionLevel)
    requires LevelWellFormed(Blocks(v, level), v.totalCodewords)
    requires var g := Blocks(v, level).ecBlocks;
      1 <= |g| <= 2 && (|g| == 2 ==> g[1].dataCodewords == g[0].dataCodewords + 1)
    ensures EncoderBlocks.BlockSize(v, level, 0) == Blocks(v, level).ecBlocks[0].dataCodewords
  {
    var b := Blocks(v, level);
    var g, ec := b.ecBlocks, b.ecCodewordsPerBlock;
    SmallLevel(b);
    var c1, d1 := g[0].blockCount, g[0].dataCodewords;
    var c2 := if |g| == 2 then g[1].blockCount else 0;
    SmallBlockCount(b);
    SplitArithmetic(c1, c2, d1, ec, v.totalCodewords);
    FirstOfSplit(v.totalCodewords, MaxDataBytes(v, level), c1 + c2, d1, c2);
  }

  /** The blocks of a level of one or two groups. */
  lemma SmallBlockCount(b: ECBlocks)
    requires 1 <= |b.ecBlocks| <= 2
    ensures TotalBlockCount(b) == b.ecBlocks[0].blockCount + (if |b.ecBlocks| == 2 then b.ecBlocks[1].blockCount else 0)
  {
    var g := b.ecBlocks;
    if |g| == 1 {
      assert g[..0] == [];
      assert BlockCountSum(g) == BlockCountSum(g[..0]) + g[0].blockCount;
    } else {
      assert g[..1] == [g[0]] && [g[0]][..0] == [];
      assert BlockCountSum(g[..1]) == g[0].blockCount;
    }
  }

  /** c1 blocks of d1 bytes and c2 blocks of d1 + 1 bytes, each with ec EC
      bytes: the data bytes are d1 per block and c2 more. */
  lemma SplitArithmetic(c1: int, c2: int, d1: int, ec: int, total: int)
    requires total == c1 * (d1 + ec) + c2 * (d1 + 1 + ec)
    ensures total - ec * (c1 + c2) == (c1 + c2) * d1 + c2
  {
    assert c1 * (d1 + ec) == c1 * d1 + c1 * ec;
    assert c2 * (d1 + 1 + ec) == c2 * d1 + c2 + c2 * ec;
    assert ec * (c1 + c2) == c1 * ec + c2 * ec;
    assert (c1 + c2) * d1 == c1 * d1 + c2 * d1;
  }

  /** The quotient the first block takes. */
  lemma FirstOfSplit(total: int, max: int, blocks: int, d1: int, c2: int)
    requires 0 <= c2 < blocks && max == blocks * d1 + c2
    ensures (if 0 < blocks - total % blocks then max / blocks else max / blocks + 1) == d1
  {
    DivModUnique(max, blocks, d1, c2);
  }

  /** Hence at levels L and M the first block of every row is longer than
      its EC count plus one. */
  lemma FirstBlockLong(v: Version, level: ErrorCorrectionLevel)
    requires WellFormed(v) && TableRow(v) && level in {L, M}
    ensures EncoderBlocks.BlockSize(v, level, 0) > Blocks(v, level).ecCodewordsPerBlock + 1
  {
    LongRow(v.versionNumber);
    assert LevelWellFormed(Blocks(v, level), v.totalCodewords);
    FirstBlockSize(v, level);
  }

  // ---------------------------------------------------------------------
  // The first byte of a stream

  /** What the stream step leaves beyond `PreparedMeaning`: the version is
      a row of the table, and the header is the one `appendModeInfo`
      writes for one of the four modes `chooseMode` picks. */
  lemma PreparedShape(content: string, level: Option<ErrorCorrectionLevel>, characterSet: Option<CharacterSetECI>,
                      versionNumber: Option<int>, options: Option<EncodingHints>, conv: Conversions)
    requires ShiftJisBytes(conv.shiftJisBytes)
    ensures var r := Prepared(content, level, characterSet, versionNumber, options, conv);
      r.Ok? ==>
        && Shaped(r.value)
        && TableRow(r.value.version)
        && r.value.mode in {Kanji, Numeric, Alphanumeric, Byte}
        && r.value.header == CreateHeaderSegment(r.value.mode, r.value.characterSet)
  {
    PreparedMeaning(content, level, characterSet, versionNumber, options, conv);
    var parsed := ParseVersion(versionNumber, options);
    if parsed.Ok? {
      StreamOfShape(content, ParseErrorCorrectionLevel(level, options), ParseCharacterSet(characterSet, options),
        parsed.value, conv);
    }
  }

  /** `StreamOfShape` once the options are parsed. */
  lemma StreamOfShape(content: string, ecLevel: ErrorCorrectionLevel, eci: Option<CharacterSetECI>,
                      requested: Option<Version>, conv: Conversions)
    requires ShiftJisBytes(conv.shiftJisBytes)
    requires requested.Some? ==> MinVersionNumber <= requested.value.versionNumber <= MaxVersionNumber
    requires requested.Some? ==> WellFormed(requested.value)
    requires requested.Some? ==> TableRow(requested.value)
    ensures var r := StreamOf(content, ecLevel, eci, requested, conv);
      r.Ok? ==>
        && TableRow(r.value.version)
        && r.value.mode in {Kanji, Numeric, Alphanumeric, Byte}
        && r.value.header == CreateHeaderSegment(r.value.mode, r.value.characterSet)
  {
    var mode := SelectedModeOf(content, eci, conv);
    var payload := DataPayload(mode, content, PayloadBytes(mode, eci, conv));
    if payload.Ok? {
      SizedMeaning(mode, eci, ecLevel, CreateHeaderSegment(mode, eci), payload.value, requested, conv);
      SizedIsRow(mode, eci, ecLevel, CreateHeaderSegment(mode, eci), payload.value, requested, conv);
    }
  }

  /** The version `encode` settles on is a row of the table. */
  lemma SizedIsRow(mode: Mode, eci: Option<CharacterSetECI>, ecLevel: ErrorCorrectionLevel, header: seq<bool>,
                   payload: seq<bool>, requested: Option<Version>, conv: Conversions)
    requires requested.Some? ==> MinVersionNumber <= requested.value.versionNumber <= MaxVersionNumber
    requires requested.Some? ==> WellFormed(requested.value)
    requires requested.Some? ==> TableRow(requested.value)
    ensures var r := Sized(mode, eci, ecLevel, header, payload, requested, conv);
      r.Ok? ==> TableRow(r.value.version)
  {
    SupportedVersionIsLowest(requested, mode, ecLevel, header, payload);
    var chosen := ChooseVersion(requested, mode, ecLevel, header, payload);
    if chosen.Ok? {
      CountedMeaning(mode, eci, ecLevel, header, payload, chosen.value, conv);
    }
  }

  /** The header's first four bits are the mode's or the ECI indicator,
      never zero. */
  lemma HeaderHeadNonzero(mode: Mode, eci: Option<CharacterSetECI>)
    requires mode in {Kanji, Numeric, Alphanumeric, Byte}
    ensures var h := CreateHeaderSegment(mode, eci); |h| >= 4 && ValueMsb(h[..4]) > 0
  {
    var h := CreateHeaderSegment(mode, eci);
    DataModeBits(mode);
    ECIBits();
    if |h| == 4 {
      assert h[|h| - 4..] == h[..4];
    }
  }

  /** The ECI indicator is 0111. */
  lemma ECIBits()
    ensures Modes.Bits(ECI) == 7
  {
  }

  /** The indicators of the four data modes are nonzero. */
  lemma DataModeBits(mode: Mode)
    requires mode in {Kanji, Numeric, Alphanumeric, Byte}
    ensures Modes.Bits(mode) > 0
  {
  }

  /** A stream of the shape `terminateCode` leaves, with such a header,
      starts with a nonzero byte. */
  lemma StreamHeadNonzero(s: Stream)
    requires Shaped(s) && s.mode in {Kanji, Numeric, Alphanumeric, Byte}
    requires s.header == CreateHeaderSegment(s.mode, s.characterSet)
    ensures |s.bits| >= 8 && ValueMsb(s.bits[..8]) > 0
  {
    MaxDataIsDataSum(s.version, s.level);
    var capacity := MaxDataBytes(s.version, s.level);
    assert |s.bits| == 8 * capacity && capacity > 0;
    assert |s.header| + |s.count| + |s.payload| <= |s.bits|;
    HeaderHeadNonzero(s.mode, s.characterSet);
    HeadByte(s.bits, s.header, s.count, s.payload);
  }

  /** Bits that start with a header start with the header's first four
      bits. */
  lemma HeadByte(bits: seq<bool>, header: seq<bool>, count: seq<bool>, payload: seq<bool>)
    requires |header| >= 4 && |bits| >= 8
    requires |header| + |count| + |payload| <= |bits|
    requires bits[..|header| + |count| + |payload|] == header + count + payload
    ensures ValueMsb(bits[..8]) >= 16 * ValueMsb(header[..4])
  {
    assert bits[..4] == header[..4] by {
      forall k | 0 <= k < 4
        ensures bits[k] == header[k]
      {
        assert bits[k] == bits[..|header| + |count| + |payload|][k];
      }
    }
    assert bits[..8] == bits[..4] + bits[4..8];
    ValueMsbConcat(bits[..4], bits[4..8]);
    assert Pow2(4) == 16;
  }

  // ---------------------------------------------------------------------
  // The divergence

  /** Whenever the stream step succeeds at level L or M, the first block
      is one on which `ZXReedSolomonEncoder.encode` never ends, whatever
      the field: `encode` cannot complete at these levels. */
  lemma EncodableFailsAtLowAndMedium(content: string, level: Option<ErrorCorrectionLevel>,
                                     characterSet: Option<CharacterSetECI>, versionNumber: Option<int>,
                                     options: Option<EncodingHints>, conv: Conversions, field: GenericGF)
    requires ShiftJisBytes(conv.shiftJisBytes)
    ensures var r := Prepared(content, level, characterSet, versionNumber, options, conv);
      r.Ok? && r.value.level in {L, M} ==>
        !Encodable(content, level, characterSet, versionNumber, options, conv, field)
  {
    var r := Prepared(content, level, characterSet, versionNumber, options, conv);
    if r.Ok? && r.value.level in {L, M} {
      PreparedShape(content, level, characterSet, versionNumber, options, conv);
      var s := r.value;
      FirstBlockLong(s.version, s.level);
      StreamHeadNonzero(s);
      FirstBlockDiverges(s.version, s.level, s.bits, field);
    }
  }

  /** A block split whose first block is long and starts with a nonzero
      byte is not encodable. */
  lemma FirstBlockDiverges(v: Version, level: ErrorCorrectionLevel, data: seq<bool>, field: GenericGF)
    requires EncoderBlocks.BlockInput(v, level, data)
    requires EncoderBlocks.BlockSize(v, level, 0) > Blocks(v, level).ecCodewordsPerBlock + 1
    requires |data| >= 8 && ValueMsb(data[..8]) > 0
    ensures !EncoderBlocks.BlocksDefined(v, level, data, field)
  {
    EncoderBlocks.BlockCountPositive(v, level);
    EncoderBlocks.BlockRowsAt(v, level, data, 0);
    var row := EncoderBlocks.BlockRows(v, level, data)[0];
    var ec := Blocks(v, level).ecCodewordsPerBlock;
    assert row[0] == ValueMsb(data[..8]);
    if ec > 0 && GeneratorDefined(field, ec) && Elements(field, row) {
      ReedSolomonEncoder.LongDataDiverges(row, field, ec);
    }
    assert !ReedSolomonEncoder.EncodeDefined(row, field, ec);
  }
}
