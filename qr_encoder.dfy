/** ZXEncoder.swift, `encode(content:errorCorrectionLevel:eciCharacterSet:requestedVersion:options:)`
    and the three `parseOptions`: the steps that turn a text into a QR Code
    record, each able to stop the encoding with the error it throws. */
module QREncoder {
  import opened Errors
  import opened Modes
  import opened CharacterSetEci
  import opened ErrorCorrectionLevels
  import opened QRVersions
  import opened GenericGF
  import opened QRField256
  import opened ByteMatrices
  import opened QRCodes
  import opened EncoderSegments
  import EncoderBlocks

  /** `DefaultErrorCorrectionLevel`. */
  const DefaultErrorCorrectionLevel: ErrorCorrectionLevel := L

  /** The fields of `ZXEncodingHints` the encoder reads. A character
      encoding is a Foundation value; what the encoder makes of it is the
      character set `ZXCharacterSetECI.lookup(encoding:)` finds for it, so
      `characterEncoding` holds that lookup's answer when the hints name an
      encoding. */
  datatype EncodingHints = EncodingHints(
    errorCorrection: Option<ErrorCorrectionLevel>,
    characterEncoding: Option<Option<CharacterSetECI>>,
    qrVersion: Option<int>)

  /** What Foundation's string conversions answer for the content, taken as
      given: whether a character set's encoding is Shift-JIS, whether the
      content converts to Shift-JIS (`ZXMode.Kanji.supportsContent`), the
      content's Shift-JIS bytes (for the Kanji payload), its bytes in a
      character set (for the Byte payload), and
      `ZXMode.calculateCharacterCount`. */
  datatype Conversions = Conversions(
    isShiftJis: Option<CharacterSetECI> -> bool,
    shiftJisConvertible: bool,
    shiftJisBytes: Option<seq<int>>,
    bytesIn: Option<CharacterSetECI> -> Option<seq<int>>,
    characterCount: (Mode, seq<bool>, Option<CharacterSetECI>) -> Result<int>)

  /** The bytes the payload builder of a mode obtains. */
  function PayloadBytes(mode: Mode, characterSet: Option<CharacterSetECI>, conv: Conversions): Option<seq<int>>
  {
    if mode == Kanji then conv.shiftJisBytes else conv.bytesIn(characterSet)
  }

  /** A Shift-JIS conversion yields bytes in pairs. */
  predicate ShiftJisBytes(encoded: Option<seq<int>>)
  {
    encoded.Some? ==> |encoded.value| % 2 == 0 && forall i :: 0 <= i < |encoded.value| ==> 0 <= encoded.value[i] < 256
  }

  /** `parseOptions(errorCorrectionLevel:options:)`: the argument, else the
      hints' level, else L. */
  function ParseErrorCorrectionLevel(level: Option<ErrorCorrectionLevel>, options: Option<EncodingHints>)
    : ErrorCorrectionLevel
  {
    if level.Some? then level.value
    else if options.Some? && options.value.errorCorrection.Some? then options.value.errorCorrection.value
    else DefaultErrorCorrectionLevel
  }

  /** `parseOptions(eciCharacterSet:options:)`: the argument, else the
      character set of the hints' encoding, else none. */
  function ParseCharacterSet(characterSet: Option<CharacterSetECI>, options: Option<EncodingHints>)
    : Option<CharacterSetECI>
  {
    if characterSet.Some? then characterSet
    else if options.Some? && options.value.characterEncoding.Some? then options.value.characterEncoding.value
    else None
  }

  /** `parseOptions(version:options:)`: no version when neither the argument
      nor the hints give a number; otherwise the row `lookupVersion` finds
      for the number, or its IllegalArgument error. */
  function ParseVersion(versionNumber: Option<int>, options: Option<EncodingHints>): (r: Result<Option<Version>>)
    ensures r.Err? ==> r.error == IllegalArgument
    ensures r.Ok? && r.value.Some? ==>
      WellFormed(r.value.value) && MinVersionNumber <= r.value.value.versionNumber <= MaxVersionNumber
  {
    var number := if versionNumber.Some? then versionNumber
      else if options.Some? then options.value.qrVersion else None;
    match number
    case None => Ok(None)
    case Some(n) =>
      match LookupVersion(n)
      case Err(e) => Err(e)
      case Ok(v) => Ok(Some(v))
  }

  /** The version choice of `encode`: the requested row when it holds the
      content, otherwise the first later row that does (from version 1
      when none was requested), otherwise InvalidFormat. */
  function ChooseVersion(requested: Option<Version>, mode: Mode, level: ErrorCorrectionLevel, header: seq<bool>,
                         data: seq<bool>): (r: Result<Version>)
    requires requested.Some? ==> MinVersionNumber <= requested.value.versionNumber <= MaxVersionNumber
    requires requested.Some? ==> WellFormed(requested.value)
    ensures r.Err? ==> r.error == InvalidFormat
    ensures r.Ok? ==> WellFormed(r.value) && WillSupportEncoding(r.value, mode, level, header, data)
  {
    if requested.Some? && WillSupportEncoding(requested.value, mode, level, header, data) then Ok(requested.value)
    else
      SupportedVersionIsLowest(requested, mode, level, header, data);
      match LookupSupportedVersion(requested, mode, level, header, data)
      case Some(v) => Ok(v)
      case None => Err(InvalidFormat)
  }

  /** The skipped row does not reach `encode`: trying the requested row
      first and then searching after it gives what the intended search,
      from the requested row itself, gives. */
  lemma ChooseVersionIsIntendedSearch(requested: Option<Version>, mode: Mode, level: ErrorCorrectionLevel,
                                      header: seq<bool>, data: seq<bool>)
    requires requested.Some? ==> MinVersionNumber <= requested.value.versionNumber <= MaxVersionNumber
    requires requested.Some? ==> WellFormed(requested.value)
    requires requested.Some? ==> requested.value == Versions()[requested.value.versionNumber - 1]
    ensures var found := IntendedLookupSupportedVersion(requested, mode, level, header, data);
      found.Some? ==> ChooseVersion(requested, mode, level, header, data) == Ok(found.value)
    ensures IntendedLookupSupportedVersion(requested, mode, level, header, data).None? ==>
      ChooseVersion(requested, mode, level, header, data) == Err(InvalidFormat)
  {
    if requested.Some? && WillSupportEncoding(requested.value, mode, level, header, data) {
      assert ChooseVersion(requested, mode, level, header, data) == Ok(requested.value);
      LookupSkipsRequestedAsWritten(requested.value, mode, level, header, data);
    } else {
      var found := LookupSupportedVersion(requested, mode, level, header, data);
      assert ChooseVersion(requested, mode, level, header, data) ==
        if found.Some? then Ok(found.value) else Err(InvalidFormat);
      IntendedSearchAfterRequested(requested, mode, level, header, data);
    }
  }

  /** The version chosen is the requested one when that holds the content,
      and otherwise the lowest-numbered later row that does; there is none
      exactly when no later row holds the content. */
  lemma ChosenVersionIsLowest(requested: Option<Version>, mode: Mode, level: ErrorCorrectionLevel,
                              header: seq<bool>, data: seq<bool>)
    requires requested.Some? ==> MinVersionNumber <= requested.value.versionNumber <= MaxVersionNumber
    requires requested.Some? ==> WellFormed(requested.value)
    ensures var from := if requested.Some? then requested.value.versionNumber else 0;
      var r := ChooseVersion(requested, mode, level, header, data);
      && (requested.Some? && WillSupportEncoding(requested.value, mode, level, header, data) ==>
            r == Ok(requested.value))
      && (!(requested.Some? && WillSupportEncoding(requested.value, mode, level, header, data)) ==>
            && (r.Ok? ==> from < r.value.versionNumber <= MaxVersionNumber &&
                          NoneSupports(from, r.value.versionNumber, mode, level, header, data))
            && (r.Err? <==> NoneSupports(from, MaxVersionNumber + 1, mode, level, header, data)))
  {
    var from := if requested.Some? then requested.value.versionNumber else 0;
    SupportedVersionIsLowest(requested, mode, level, header, data);
    if !(requested.Some? && WillSupportEncoding(requested.value, mode, level, header, data)) {
      var found := LookupSupportedVersion(requested, mode, level, header, data);
      if found.Some? {
        TableWellFormed(found.value.versionNumber);
      }
    }
  }

  /** The bit stream `encode` has built when `terminateCode` returns: the
      mode and character set chosen, the level, the version, and the
      terminated and padded data codewords. */
  datatype Stream = Stream(
    mode: Mode,
    characterSet: Option<CharacterSetECI>,
    level: ErrorCorrectionLevel,
    version: Version,
    header: seq<bool>,
    count: seq<bool>,
    payload: seq<bool>,
    bits: seq<bool>)

  /** The mode `encode` selects for the content and character set. */
  function SelectedModeOf(content: string, characterSet: Option<CharacterSetECI>, conv: Conversions): (m: Mode)
    ensures m in {Kanji, Numeric, Alphanumeric, Byte}
    ensures m == Numeric ==> forall i :: 0 <= i < |content| ==> IsDigit(content[i])
    ensures m == Kanji ==> conv.isShiftJis(characterSet) && conv.shiftJisConvertible
  {
    SelectedMode(content, conv.isShiftJis(characterSet), conv.shiftJisConvertible);
    SelectEncodingMode(content, conv.isShiftJis(characterSet), conv.shiftJisConvertible)
  }

  /** `encode` up to and including `terminateCode`: parse the options,
      select the mode, build the header and the payload, choose the
      version, build the character count, and terminate and pad the
      stream; the first step that throws ends it. */
  function Prepared(content: string, level: Option<ErrorCorrectionLevel>, characterSet: Option<CharacterSetECI>,
                    versionNumber: Option<int>, options: Option<EncodingHints>, conv: Conversions)
    : Result<Stream>
    requires ShiftJisBytes(conv.shiftJisBytes)
  {
    match ParseVersion(versionNumber, options)
    case Err(e) => Err(e)
    case Ok(requested) =>
      StreamOf(content, ParseErrorCorrectionLevel(level, options), ParseCharacterSet(characterSet, options),
        requested, conv)
  }

  /** `encode` once the options are parsed: the mode, the header and the
      payload. */
  function StreamOf(content: string, ecLevel: ErrorCorrectionLevel, eci: Option<CharacterSetECI>,
                    requested: Option<Version>, conv: Conversions): Result<Stream>
    requires ShiftJisBytes(conv.shiftJisBytes)
    requires requested.Some? ==> MinVersionNumber <= requested.value.versionNumber <= MaxVersionNumber
    requires requested.Some? ==> WellFormed(requested.value)
  {
    var mode := SelectedModeOf(content, eci, conv);
    var header := CreateHeaderSegment(mode, eci);
    match DataPayload(mode, content, PayloadBytes(mode, eci, conv))
    case Err(e) => Err(e)
    case Ok(payload) => Sized(mode, eci, ecLevel, header, payload, requested, conv)
  }

  /** `encode` once the payload is built: the version, then the rest. */
  function Sized(mode: Mode, eci: Option<CharacterSetECI>, ecLevel: ErrorCorrectionLevel, header: seq<bool>,
                 payload: seq<bool>, requested: Option<Version>, conv: Conversions): Result<Stream>
    requires requested.Some? ==> MinVersionNumber <= requested.value.versionNumber <= MaxVersionNumber
    requires requested.Some? ==> WellFormed(requested.value)
  {
    match ChooseVersion(requested, mode, ecLevel, header, payload)
    case Err(e) => Err(e)
    case Ok(version) => Counted(mode, eci, ecLevel, header, payload, version, conv)
  }

  /** `encode` once the version is chosen: the character count, then
      `terminateCode`, which throws InvalidFormat when the stream exceeds
      the data capacity. */
  function Counted(mode: Mode, eci: Option<CharacterSetECI>, ecLevel: ErrorCorrectionLevel, header: seq<bool>,
                   payload: seq<bool>, version: Version, conv: Conversions): Result<Stream>
  {
    match CreateCharacterCountSegment(mode, version.versionNumber, conv.characterCount(mode, payload, eci))
    case Err(e) => Err(e)
    case Ok(count) =>
      var bits := header + count + payload;
      var bytesCapacity := MaxDataBytes(version, ecLevel);
      if |bits| > 8 * bytesCapacity then Err(InvalidFormat)
      else Ok(Stream(mode, eci, ecLevel, version, header, count, payload, Terminated(bits, bytesCapacity)))
  }

  /** A stream of the shape `terminateCode` leaves: a row of the table
      that holds the content, a count field of the mode's width, and the
      header, the count and the payload followed by zeros and pad
      codewords, exactly the data capacity of the version. */
  predicate Shaped(s: Stream)
  {
    && WellFormed(s.version)
    && WillSupportEncoding(s.version, s.mode, s.level, s.header, s.payload)
    && |s.count| == CharacterCountBits(s.mode, s.version.versionNumber)
    && |s.bits| == 8 * MaxDataBytes(s.version, s.level)
    && s.bits[..|s.header| + |s.count| + |s.payload|] == s.header + s.count + s.payload
  }

  /** On a version that holds the content, `terminateCode` never throws:
      the only error left is that of the character count. A stream holds
      the header, the count and the payload followed by zeros and pad
      codewords, exactly the data capacity of the version. */
  lemma CountedMeaning(mode: Mode, eci: Option<CharacterSetECI>, ecLevel: ErrorCorrectionLevel, header: seq<bool>,
                       payload: seq<bool>, version: Version, conv: Conversions)
    ensures var r := Counted(mode, eci, ecLevel, header, payload, version, conv);
      var count := CreateCharacterCountSegment(mode, version.versionNumber, conv.characterCount(mode, payload, eci));
      && (WillSupportEncoding(version, mode, ecLevel, header, payload) ==> (r.Err? <==> count.Err?))
      && (r.Err? && count.Ok? ==> r.error == InvalidFormat)
      && (count.Err? ==> r == Err(count.error))
      && (r.Ok? ==>
            var s := r.value;
            && s.mode == mode && s.characterSet == eci && s.level == ecLevel && s.version == version
            && s.header == header && s.payload == payload && s.count == count.value
            && |s.count| == CharacterCountBits(mode, version.versionNumber)
            && |s.bits| == 8 * MaxDataBytes(version, ecLevel)
            && s.bits[..|header| + |s.count| + |payload|] == header + s.count + payload)
  {
    var count := CreateCharacterCountSegment(mode, version.versionNumber, conv.characterCount(mode, payload, eci));
    var r := Counted(mode, eci, ecLevel, header, payload, version, conv);
    if count.Ok? {
      var bits := header + count.value + payload;
      var capacity := MaxDataBytes(version, ecLevel);
      if |bits| <= 8 * capacity {
        TerminatedFill(bits, capacity);
        assert r == Ok(Stream(mode, eci, ecLevel, version, header, count.value, payload, Terminated(bits, capacity)));
      } else {
        assert r == Err(InvalidFormat);
      }
    } else {
      assert r == Err(count.error);
    }
  }

  /** The steps after the payload fail only at the version choice
      (InvalidFormat) or at the character count; a stream keeps the mode,
      the character set, the level, the header and the payload, and has
      the shape `terminateCode` leaves. */
  lemma SizedMeaning(mode: Mode, eci: Option<CharacterSetECI>, ecLevel: ErrorCorrectionLevel, header: seq<bool>,
                     payload: seq<bool>, requested: Option<Version>, conv: Conversions)
    requires requested.Some? ==> MinVersionNumber <= requested.value.versionNumber <= MaxVersionNumber
    requires requested.Some? ==> WellFormed(requested.value)
    ensures var r := Sized(mode, eci, ecLevel, header, payload, requested, conv);
      var v := ChooseVersion(requested, mode, ecLevel, header, payload);
      && (v.Err? ==> r == Err(InvalidFormat))
      && (v.Ok? ==> r == Counted(mode, eci, ecLevel, header, payload, v.value, conv))
      && (r.Ok? ==>
            && r.value.mode == mode && r.value.characterSet == eci && r.value.level == ecLevel
            && r.value.header == header && r.value.payload == payload
            && Shaped(r.value))
  {
    var r := Sized(mode, eci, ecLevel, header, payload, requested, conv);
    var v := ChooseVersion(requested, mode, ecLevel, header, payload);
    if v.Ok? {
      assert r == Counted(mode, eci, ecLevel, header, payload, v.value, conv);
      CountedMeaning(mode, eci, ecLevel, header, payload, v.value, conv);
      if r.Ok? {
        assert r.value.version == v.value;
      }
    } else {
      assert r == Err(v.error);
    }
  }

  /** The steps after option parsing: the mode selected supports the
      content, the header is the mode's, and a stream has the shape
      `terminateCode` leaves. */
  lemma StreamOfMeaning(content: string, ecLevel: ErrorCorrectionLevel, eci: Option<CharacterSetECI>,
                        requested: Option<Version>, conv: Conversions)
    requires ShiftJisBytes(conv.shiftJisBytes)
    requires requested.Some? ==> MinVersionNumber <= requested.value.versionNumber <= MaxVersionNumber
    requires requested.Some? ==> WellFormed(requested.value)
    ensures var r := StreamOf(content, ecLevel, eci, requested, conv);
      r.Ok? ==>
        && r.value.level == ecLevel && r.value.characterSet == eci
        && r.value.mode == SelectEncodingMode(content, conv.isShiftJis(eci), conv.shiftJisConvertible)
        && SupportsContent(r.value.mode, content, conv.shiftJisConvertible)
        && r.value.header == CreateHeaderSegment(r.value.mode, eci)
        && Shaped(r.value)
  {
    var mode := SelectedModeOf(content, eci, conv);
    SelectedMode(content, conv.isShiftJis(eci), conv.shiftJisConvertible);
    var payload := DataPayload(mode, content, PayloadBytes(mode, eci, conv));
    if payload.Ok? {
      SizedMeaning(mode, eci, ecLevel, CreateHeaderSegment(mode, eci), payload.value, requested, conv);
    }
  }

  /** What the stream step promises: an error is IllegalArgument when the
      version number is rejected; a stream has the level given or
      defaulted, the character set given or named by the hints, a mode
      that supports the content, and the shape `terminateCode` leaves. */
  lemma PreparedMeaning(content: string, level: Option<ErrorCorrectionLevel>, characterSet: Option<CharacterSetECI>,
                        versionNumber: Option<int>, options: Option<EncodingHints>, conv: Conversions)
    requires ShiftJisBytes(conv.shiftJisBytes)
    ensures var r := Prepared(content, level, characterSet, versionNumber, options, conv);
      && (ParseVersion(versionNumber, options).Err? ==> r == Err(IllegalArgument))
      && (r.Ok? ==>
            && r.value.level == ParseErrorCorrectionLevel(level, options)
            && (level.None? && (options.None? || options.value.errorCorrection.None?) ==> r.value.level == L)
            && r.value.characterSet == ParseCharacterSet(characterSet, options)
            && SupportsContent(r.value.mode, content, conv.shiftJisConvertible)
            && Shaped(r.value))
  {
    var parsed := ParseVersion(versionNumber, options);
    if parsed.Ok? {
      StreamOfMeaning(content, ParseErrorCorrectionLevel(level, options), ParseCharacterSet(characterSet, options),
        parsed.value, conv);
    }
  }

  /** The stream codewords pass to Reed-Solomon: every block of the
      version's split is one on which `encode` terminates. */
  ghost predicate Encodable(content: string, level: Option<ErrorCorrectionLevel>, characterSet: Option<CharacterSetECI>,
                            versionNumber: Option<int>, options: Option<EncodingHints>, conv: Conversions,
                            field: GenericGF)
    requires ShiftJisBytes(conv.shiftJisBytes)
  {
    var r := Prepared(content, level, characterSet, versionNumber, options, conv);
    r.Ok? ==> EncoderBlocks.BlocksDefined(r.value.version, r.value.level, r.value.bits, field)
  }

  /** The record `encode` returns, field by field. */
  datatype Symbol = Symbol(stream: Stream, codewords: seq<bool>, maskPattern: int, matrix: ByteMatrix)

  /** `encode`: the stream, then `applyErrorCorrection`, then
      `ZXByteMatrix.lookupMaskPattern` and the matrix initializer
      `ZXByteMatrix(data:errorCorrectionLevel:version:maskPattern:)`, which
      are not part of this model and come in as `lookupMaskPattern` and
      `buildMatrix`. */
  function Encoded(content: string, level: Option<ErrorCorrectionLevel>, characterSet: Option<CharacterSetECI>,
                   versionNumber: Option<int>, options: Option<EncodingHints>, conv: Conversions, field: GenericGF,
                   lookupMaskPattern: (seq<bool>, ErrorCorrectionLevel, Version) -> Result<int>,
                   buildMatrix: (seq<bool>, ErrorCorrectionLevel, Version, int) -> Result<ByteMatrix>)
    : Result<Symbol>
    requires ShiftJisBytes(conv.shiftJisBytes)
    requires Encodable(content, level, characterSet, versionNumber, options, conv, field)
  {
    match Prepared(content, level, characterSet, versionNumber, options, conv)
    case Err(e) => Err(e)
    case Ok(s) => Finished(s, field, lookupMaskPattern, buildMatrix)
  }

  /** `encode` after `terminateCode`. */
  function Finished(s: Stream, field: GenericGF,
                    lookupMaskPattern: (seq<bool>, ErrorCorrectionLevel, Version) -> Result<int>,
                    buildMatrix: (seq<bool>, ErrorCorrectionLevel, Version, int) -> Result<ByteMatrix>)
    : (r: Result<Symbol>)
    requires EncoderBlocks.BlocksDefined(s.version, s.level, s.bits, field)
    ensures r.Ok? ==> r.value.stream == s
  {
    match EncoderBlocks.ErrorCorrected(s.version, s.level, s.bits, field)
    case Err(e) => Err(e)
    case Ok(codewords) => Recorded(s, codewords, lookupMaskPattern, buildMatrix)
  }

  /** `encode` after `applyErrorCorrection`: the mask, then the matrix. */
  function Recorded(s: Stream, codewords: seq<bool>,
                    lookupMaskPattern: (seq<bool>, ErrorCorrectionLevel, Version) -> Result<int>,
                    buildMatrix: (seq<bool>, ErrorCorrectionLevel, Version, int) -> Result<ByteMatrix>)
    : (r: Result<Symbol>)
    ensures r.Ok? ==> r.value.stream == s && r.value.codewords == codewords
  {
    match lookupMaskPattern(codewords, s.level, s.version)
    case Err(e) => Err(e)
    case Ok(maskPattern) =>
      match buildMatrix(codewords, s.level, s.version, maskPattern)
      case Err(e) => Err(e)
      case Ok(matrix) => Ok(Symbol(s, codewords, maskPattern, matrix))
  }

  /** Error correction never fails on a stream: the codewords are the
      version's `totalCodewords` bytes; the mask and the matrix are those
      the two outside calls give for them. */
  lemma EncodedMeaning(content: string, level: Option<ErrorCorrectionLevel>, characterSet: Option<CharacterSetECI>,
                       versionNumber: Option<int>, options: Option<EncodingHints>, conv: Conversions,
                       field: GenericGF, lookupMaskPattern: (seq<bool>, ErrorCorrectionLevel, Version) -> Result<int>,
                       buildMatrix: (seq<bool>, ErrorCorrectionLevel, Version, int) -> Result<ByteMatrix>)
    requires ShiftJisBytes(conv.shiftJisBytes)
    requires Encodable(content, level, characterSet, versionNumber, options, conv, field)
    ensures var p := Prepared(content, level, characterSet, versionNumber, options, conv);
      var r := Encoded(content, level, characterSet, versionNumber, options, conv, field, lookupMaskPattern, buildMatrix);
      && (p.Err? ==> r == Err(p.error))
      && (p.Ok? ==>
            var codewords := EncoderBlocks.ErrorCorrected(p.value.version, p.value.level, p.value.bits, field);
            && codewords.Ok?
            && |codewords.value| == 8 * p.value.version.totalCodewords
            && (r.Ok? <==>
                  lookupMaskPattern(codewords.value, p.value.level, p.value.version).Ok? &&
                  buildMatrix(codewords.value, p.value.level, p.value.version,
                    lookupMaskPattern(codewords.value, p.value.level, p.value.version).value).Ok?)
            && (r.Ok? ==> r.value.stream == p.value && r.value.codewords == codewords.value))
  {
    var p := Prepared(content, level, characterSet, versionNumber, options, conv);
    if p.Ok? {
      EncoderBlocks.ErrorCorrectedOk(p.value.version, p.value.level, p.value.bits, field);
    }
  }

  /** `encode(content:errorCorrectionLevel:eciCharacterSet:requestedVersion:options:)`.
      `field` is `QRCode_Field256`. The record is made with `init()` and
      its fields are then set: the initializer with mode, version and level
      that the source calls is not declared in ZXQRCode.swift. */
  method Encode(content: string, level: Option<ErrorCorrectionLevel>, characterSet: Option<CharacterSetECI>,
                versionNumber: Option<int>, options: Option<EncodingHints>, conv: Conversions, field: GenericGF,
                lookupMaskPattern: (seq<bool>, ErrorCorrectionLevel, Version) -> Result<int>,
                buildMatrix: (seq<bool>, ErrorCorrectionLevel, Version, int) -> Result<ByteMatrix>)
    returns (r: Result<QRCode>)
    requires IsQRField(field)
    requires ShiftJisBytes(conv.shiftJisBytes)
    requires Encodable(content, level, characterSet, versionNumber, options, conv, field)
    ensures var e := Encoded(content, level, characterSet, versionNumber, options, conv, field, lookupMaskPattern,
      buildMatrix);
      && (r.Err? <==> e.Err?)
      && (r.Err? ==> r.error == e.error)
      && (r.Ok? ==>
            && fresh(r.value)
            && r.value.mode == Some(e.value.stream.mode)
            && r.value.errorCorrectionLevel == Some(e.value.stream.level)
            && r.value.version == Some(e.value.stream.version)
            && r.value.maskPattern == e.value.maskPattern
            && r.value.matrix == Some(e.value.matrix))
  {
    var stream := PrepareStream(content, level, characterSet, versionNumber, options, conv);
    if stream.Err? {
      return Err(stream.error);
    }
    r := Finish(stream.value, field, lookupMaskPattern, buildMatrix);
  }

  /** `encode` after `terminateCode`: error correction, then the record
      with the mode, version and level of the stream, the mask and the
      matrix. `field` is `QRCode_Field256`. The record is made with `init()`
      and its fields are then set: the initializer with mode, version and
      level that the source calls is not declared in ZXQRCode.swift. */
  method Finish(s: Stream, field: GenericGF,
                lookupMaskPattern: (seq<bool>, ErrorCorrectionLevel, Version) -> Result<int>,
                buildMatrix: (seq<bool>, ErrorCorrectionLevel, Version, int) -> Result<ByteMatrix>)
    returns (r: Result<QRCode>)
    requires IsQRField(field) && EncoderBlocks.BlocksDefined(s.version, s.level, s.bits, field)
    ensures var e := Finished(s, field, lookupMaskPattern, buildMatrix);
      && (r.Err? <==> e.Err?)
      && (r.Err? ==> r.error == e.error)
      && (r.Ok? ==>
            && fresh(r.value)
            && r.value.mode == Some(s.mode)
            && r.value.errorCorrectionLevel == Some(s.level)
            && r.value.version == Some(s.version)
            && r.value.maskPattern == e.value.maskPattern
            && r.value.matrix == Some(e.value.matrix))
  {
    var errorCorrectedBits := CorrectStream(s, field);
    if errorCorrectedBits.Err? {
      return Err(errorCorrectedBits.error);
    }
    r := Record(s, errorCorrectedBits.value, lookupMaskPattern, buildMatrix);
  }

  /** `applyErrorCorrection` on the stream. */
  method CorrectStream(s: Stream, field: GenericGF) returns (r: Result<seq<bool>>)
    requires IsQRField(field) && EncoderBlocks.BlocksDefined(s.version, s.level, s.bits, field)
    ensures r == EncoderBlocks.ErrorCorrected(s.version, s.level, s.bits, field)
  {
    r := EncoderBlocks.ApplyErrorCorrection(s.version, s.level, s.bits, field);
  }

  /** The record with the stream's mode, version and level, then the mask
      and the matrix of the codewords. */
  method Record(s: Stream, codewords: seq<bool>,
                lookupMaskPattern: (seq<bool>, ErrorCorrectionLevel, Version) -> Result<int>,
                buildMatrix: (seq<bool>, ErrorCorrectionLevel, Version, int) -> Result<ByteMatrix>)
    returns (r: Result<QRCode>)
    ensures var e := Recorded(s, codewords, lookupMaskPattern, buildMatrix);
      && (r.Err? <==> e.Err?)
      && (r.Err? ==> r.error == e.error)
      && (r.Ok? ==>
            && fresh(r.value)
            && r.value.mode == Some(s.mode)
            && r.value.errorCorrectionLevel == Some(s.level)
            && r.value.version == Some(s.version)
            && r.value.maskPattern == e.value.maskPattern
            && r.value.matrix == Some(e.value.matrix))
  {
    var qrCode := new QRCode();
    qrCode.mode := Some(s.mode);
    qrCode.version := Some(s.version);
    qrCode.errorCorrectionLevel := Some(s.level);
    var maskPattern := lookupMaskPattern(codewords, s.level, s.version);
    if maskPattern.Err? {
      return Err(maskPattern.error);
    }
    qrCode.maskPattern := maskPattern.value;
    var matrix := buildMatrix(codewords, s.level, s.version, qrCode.maskPattern);
    if matrix.Err? {
      return Err(matrix.error);
    }
    qrCode.matrix := Some(matrix.value);
    return Ok(qrCode);
  }

  /** The steps of `encode` up to `terminateCode`, as the source runs them. */
  method PrepareStream(content: string, level: Option<ErrorCorrectionLevel>, characterSet: Option<CharacterSetECI>,
                       versionNumber: Option<int>, options: Option<EncodingHints>, conv: Conversions)
    returns (r: Result<Stream>)
    requires ShiftJisBytes(conv.shiftJisBytes)
    ensures r == Prepared(content, level, characterSet, versionNumber, options, conv)
  {
    var ecLevel := ParseErrorCorrectionLevel(level, options);
    var eci := ParseCharacterSet(characterSet, options);
    var requestedVersion := ParseVersion(versionNumber, options);
    if requestedVersion.Err? {
      return Err(requestedVersion.error);
    }
    var mode := SelectedModeOf(content, eci, conv);
    var headerBits := CreateHeaderSegment(mode, eci);
    var dataBits := CreateDataPayload(mode, content, PayloadBytes(mode, eci, conv));
    if dataBits.Err? {
      return Err(dataBits.error);
    }
    r := SizeAndTerminate(mode, eci, ecLevel, headerBits, dataBits.value, requestedVersion.value, conv);
  }

  /** The steps of `encode` once the payload is built: the version choice,
      then the character count and `terminateCode`. */
  method SizeAndTerminate(mode: Mode, eci: Option<CharacterSetECI>, ecLevel: ErrorCorrectionLevel, headerBits: seq<bool>,
                          dataBits: seq<bool>, requestedVersion: Option<Version>, conv: Conversions)
    returns (r: Result<Stream>)
    requires requestedVersion.Some? ==> MinVersionNumber <= requestedVersion.value.versionNumber <= MaxVersionNumber
    requires requestedVersion.Some? ==> WellFormed(requestedVersion.value)
    ensures r == Sized(mode, eci, ecLevel, headerBits, dataBits, requestedVersion, conv)
  {
    var version := ChooseVersion(requestedVersion, mode, ecLevel, headerBits, dataBits);
    if version.Err? {
      assert Sized(mode, eci, ecLevel, headerBits, dataBits, requestedVersion, conv) == Err(version.error);
      return Err(version.error);
    }
    assert Sized(mode, eci, ecLevel, headerBits, dataBits, requestedVersion, conv) ==
      Counted(mode, eci, ecLevel, headerBits, dataBits, version.value, conv);
    r := CountAndTerminate(mode, eci, ecLevel, headerBits, dataBits, version.value, conv);
  }

  /** The steps of `encode` after the version is chosen: the character
      count segment, then `terminateCode`. */
  method CountAndTerminate(mode: Mode, eci: Option<CharacterSetECI>, ecLevel: ErrorCorrectionLevel, headerBits: seq<bool>,
                           dataBits: seq<bool>, version: Version, conv: Conversions)
    returns (r: Result<Stream>)
    ensures r == Counted(mode, eci, ecLevel, headerBits, dataBits, version, conv)
  {
    var characterCountBits :=
      CreateCharacterCountSegment(mode, version.versionNumber, conv.characterCount(mode, dataBits, eci));
    if characterCountBits.Err? {
      return Err(characterCountBits.error);
    }
    var encodedBits := headerBits + characterCountBits.value + dataBits;
    var terminated := TerminateCode(version, ecLevel, encodedBits);
    if terminated.Err? {
      return Err(terminated.error);
    }
    return Ok(Stream(mode, eci, ecLevel, version, headerBits, characterCountBits.value, dataBits, terminated.value));
  }
}
