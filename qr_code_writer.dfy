/** ZXQRCodeWriter.swift: the QR Code writer, which checks its arguments,
    encodes the content, and scales the symbol's modules onto a bit
    matrix. */
module QRCodeWriter {
  import opened Errors
  import opened Bits
  import opened BitMatrices
  import opened ByteMatrices
  import opened ErrorCorrectionLevels
  import opened QRCodes
  import opened QRField256
  import QRVersions
  import GenericGF
  import QREncoder
  import OneDimensionalWriter

  /** `DefaultErrorCorrectionLevel`. */
  const DefaultErrorCorrectionLevel: ErrorCorrectionLevel := L

  /** `DefaultMargin`: `encode` adds no quiet zone of its own. */
  const DefaultMargin: int := 0

  /** `ZXBarcodeFormat`, as far as this writer tells formats apart: it
      accepts `QR_Code` and refuses every other format. */
  datatype BarcodeFormat = QRCodeFormat | OtherFormat

  function Min(a: int, b: int): int
  {
    if a <= b then a else b
  }

  /** The geometry `render` works out. */
  datatype Placement = Placement(outputWidth: int, outputHeight: int, multiple: int, leftPadding: int,
                                 topPadding: int)

  /** `render`'s sizes: the output is at least the requested size and at
      least the symbol with its margins; `multiple` is the largest whole
      scale at which the symbol with its margins fits both output
      dimensions; the scaled symbol is centred, any odd pixel going to the
      right or the bottom. */
  function Place(inputWidth: int, inputHeight: int, width: int, height: int, margin: int): (p: Placement)
    requires margin >= 0 && inputWidth + 2 * margin > 0 && inputHeight + 2 * margin > 0
    ensures p.outputWidth == OneDimensionalWriter.Max(width, inputWidth + 2 * margin)
    ensures p.outputHeight == OneDimensionalWriter.Max(height, inputHeight + 2 * margin)
    ensures p.multiple >= 1
    ensures p.multiple * (inputWidth + 2 * margin) <= p.outputWidth
    ensures p.multiple * (inputHeight + 2 * margin) <= p.outputHeight
    ensures (p.multiple + 1) * (inputWidth + 2 * margin) > p.outputWidth ||
            (p.multiple + 1) * (inputHeight + 2 * margin) > p.outputHeight
    ensures 0 <= p.leftPadding && p.leftPadding + inputWidth * p.multiple <= p.outputWidth
    ensures p.outputWidth - (2 * p.leftPadding + inputWidth * p.multiple) in {0, 1}
    ensures 0 <= p.topPadding && p.topPadding + inputHeight * p.multiple <= p.outputHeight
    ensures p.outputHeight - (2 * p.topPadding + inputHeight * p.multiple) in {0, 1}
  {
    var qrWidth := inputWidth + 2 * margin;
    var qrHeight := inputHeight + 2 * margin;
    var outputWidth := OneDimensionalWriter.Max(width, qrWidth);
    var outputHeight := OneDimensionalWriter.Max(height, qrHeight);
    var multiple := Min(outputWidth / qrWidth, outputHeight / qrHeight);
    AxisFits(outputWidth, qrWidth, inputWidth, multiple);
    AxisFits(outputHeight, qrHeight, inputHeight, multiple);
    Placement(outputWidth, outputHeight, multiple, (outputWidth - inputWidth * multiple) / 2,
      (outputHeight - inputHeight * multiple) / 2)
  }

  /** A scale no larger than output / full fits the full size, and so the
      symbol inside it, in the output. */
  lemma AxisFits(output: int, full: int, input: int, multiple: int)
    requires 0 < full <= output && input <= full && multiple <= output / full
    ensures output / full >= 1
    ensures (output / full + 1) * full > output
    ensures multiple >= 0 ==> multiple * full <= output && input * multiple <= output
  {
    OneDimensionalWriter.ScaleBounds(output, full, 0);
    if multiple >= 0 {
      MulMonotone(multiple, output / full, full);
      MulMonotone(input, full, multiple);
    }
  }

  /** The module a cell of the output shows: cell (r, c) lies in the square
      of module ((c - leftPadding) / multiple, (r - topPadding) / multiple),
      and is black when that square belongs to the symbol and the module is
      dark (value 1). */
  ghost predicate ModuleAt(g: seq<seq<uint8>>, inputWidth: int, inputHeight: int, p: Placement, r: int, c: int)
    requires IsGrid(g, inputWidth, inputHeight) && p.multiple >= 1
  {
    p.topPadding <= r && p.leftPadding <= c &&
    (r - p.topPadding) / p.multiple < inputHeight && (c - p.leftPadding) / p.multiple < inputWidth &&
    g[(r - p.topPadding) / p.multiple][(c - p.leftPadding) / p.multiple] == 1
  }

  /** Every dark module becomes a black `multiple` x `multiple` square at
      (leftPadding + x multiple, topPadding + y multiple), every light one a
      white square; every cell outside the scaled symbol is white. */
  lemma ModuleSquares(g: seq<seq<uint8>>, inputWidth: int, inputHeight: int, p: Placement, x: int, y: int,
                      r: int, c: int)
    requires IsGrid(g, inputWidth, inputHeight) && p.multiple >= 1
    ensures 0 <= x < inputWidth && 0 <= y < inputHeight &&
            InRegion(p.leftPadding + x * p.multiple, p.topPadding + y * p.multiple, p.multiple, p.multiple, r, c)
            ==> (ModuleAt(g, inputWidth, inputHeight, p, r, c) <==> g[y][x] == 1)
    ensures r < p.topPadding || p.topPadding + inputHeight * p.multiple <= r ||
            c < p.leftPadding || p.leftPadding + inputWidth * p.multiple <= c
            ==> !ModuleAt(g, inputWidth, inputHeight, p, r, c)
  {
    var m := p.multiple;
    if 0 <= x < inputWidth && 0 <= y < inputHeight &&
       InRegion(p.leftPadding + x * m, p.topPadding + y * m, m, m, r, c) {
      QuotientIs(r - p.topPadding, m, y);
      QuotientIs(c - p.leftPadding, m, x);
    }
    if p.topPadding <= r && p.leftPadding <= c {
      QuotientBounds(r - p.topPadding, m);
      QuotientBounds(c - p.leftPadding, m);
      if (r - p.topPadding) / m < inputHeight {
        MulMonotone((r - p.topPadding) / m + 1, inputHeight, m);
      }
      if (c - p.leftPadding) / m < inputWidth {
        MulMonotone((c - p.leftPadding) / m + 1, inputWidth, m);
      }
    }
  }

  /** Whether cell (r, c) is black once `render` has drawn the modules
      before column x of row y, rows first. */
  ghost predicate DrawnBy(g: seq<seq<uint8>>, inputWidth: int, inputHeight: int, p: Placement, y: int, x: int,
                          r: int, c: int)
    requires IsGrid(g, inputWidth, inputHeight) && p.multiple >= 1
  {
    ModuleAt(g, inputWidth, inputHeight, p, r, c) &&
    ((r - p.topPadding) / p.multiple < y ||
     ((r - p.topPadding) / p.multiple == y && (c - p.leftPadding) / p.multiple < x))
  }

  /** The cells of a matrix of the given size hold the modules drawn so
      far. */
  ghost predicate DrawnSoFar(bits: seq<bool>, width: int, height: int, g: seq<seq<uint8>>, inputWidth: int,
                             inputHeight: int, p: Placement, y: int, x: int)
    requires 0 < width && |bits| == width * height
    requires IsGrid(g, inputWidth, inputHeight) && p.multiple >= 1
  {
    forall r, c :: 0 <= r < height && 0 <= c < width ==>
      CellOf(bits, width, height, r, c) == DrawnBy(g, inputWidth, inputHeight, p, y, x, r, c)
  }

  /** Drawing module (x, y) changes exactly its square, which then shows
      the module. */
  lemma ModuleStep(g: seq<seq<uint8>>, inputWidth: int, inputHeight: int, p: Placement, y: int, x: int,
                   r: int, c: int)
    requires IsGrid(g, inputWidth, inputHeight) && p.multiple >= 1
    requires 0 <= y < inputHeight && 0 <= x < inputWidth
    ensures var inSquare :=
        InRegion(p.leftPadding + x * p.multiple, p.topPadding + y * p.multiple, p.multiple, p.multiple, r, c);
      && (inSquare ==> !DrawnBy(g, inputWidth, inputHeight, p, y, x, r, c))
      && DrawnBy(g, inputWidth, inputHeight, p, y, x + 1, r, c) ==
           if inSquare then g[y][x] == 1 else DrawnBy(g, inputWidth, inputHeight, p, y, x, r, c)
  {
    var m := p.multiple;
    if InRegion(p.leftPadding + x * m, p.topPadding + y * m, m, m, r, c) {
      QuotientIs(r - p.topPadding, m, y);
      QuotientIs(c - p.leftPadding, m, x);
    } else if p.topPadding <= r && p.leftPadding <= c {
      QuotientBounds(r - p.topPadding, m);
      QuotientBounds(c - p.leftPadding, m);
    }
  }

  /** A row fully drawn is the start of the next. */
  lemma RowDone(g: seq<seq<uint8>>, inputWidth: int, inputHeight: int, p: Placement, y: int, r: int, c: int)
    requires IsGrid(g, inputWidth, inputHeight) && p.multiple >= 1
    ensures DrawnBy(g, inputWidth, inputHeight, p, y, inputWidth, r, c) ==
            DrawnBy(g, inputWidth, inputHeight, p, y + 1, 0, r, c)
  {
    if p.leftPadding <= c {
      QuotientBounds(c - p.leftPadding, p.multiple);
    }
  }

  /** Nothing is drawn before the first module; everything is drawn after
      the last row. */
  lemma DrawnEnds(g: seq<seq<uint8>>, inputWidth: int, inputHeight: int, p: Placement, r: int, c: int)
    requires IsGrid(g, inputWidth, inputHeight) && p.multiple >= 1
    ensures !DrawnBy(g, inputWidth, inputHeight, p, 0, 0, r, c)
    ensures DrawnBy(g, inputWidth, inputHeight, p, inputHeight, 0, r, c) == ModuleAt(g, inputWidth, inputHeight, p, r, c)
  {
    if p.topPadding <= r && p.leftPadding <= c {
      QuotientBounds(r - p.topPadding, p.multiple);
      QuotientBounds(c - p.leftPadding, p.multiple);
    }
  }

  /** The symbol can be scaled: a well-formed grid, and with the margins at
      least one module wide and high (`render` divides by these sizes). */
  ghost predicate Renderable(source: ByteMatrix, margin: int)
    reads source
  {
    source.Valid() && margin >= 0 && source.width + 2 * margin > 0 && source.height + 2 * margin > 0
  }

  /** m is the rendering of the symbol: the placement's size, every cell
      showing the module it falls in. */
  ghost predicate Drawing(m: BitMatrix, source: ByteMatrix, width: int, height: int, margin: int)
    reads m, source
    requires Renderable(source, margin)
  {
    var p := Place(source.width, source.height, width, height, margin);
    m.Valid() && m.width == p.outputWidth && m.height == p.outputHeight &&
    forall r, c :: 0 <= r < m.height && 0 <= c < m.width ==>
      CellOf(m.bits, m.width, m.height, r, c) == ModuleAt(source.bytes, source.width, source.height, p, r, c)
  }

  /** One iteration of `render`'s inner loop: module (x, y), if dark, as a
      black square at (outputX, outputY). */
  method DrawModule(result: BitMatrix, dark: bool, outputX: int, outputY: int, multiple: int,
                    ghost g: seq<seq<uint8>>, ghost inputWidth: int, ghost inputHeight: int, ghost p: Placement,
                    ghost y: int, ghost x: int)
    requires result.Valid() && IsGrid(g, inputWidth, inputHeight) && p.multiple >= 1 && multiple == p.multiple
    requires 0 <= y < inputHeight && 0 <= x < inputWidth && dark == (g[y][x] == 1)
    requires 0 <= p.leftPadding && p.leftPadding + inputWidth * p.multiple <= result.width
    requires 0 <= p.topPadding && p.topPadding + inputHeight * p.multiple <= result.height
    requires outputX == p.leftPadding + x * p.multiple && outputY == p.topPadding + y * p.multiple
    requires DrawnSoFar(result.bits, result.width, result.height, g, inputWidth, inputHeight, p, y, x)
    modifies result
    ensures result.Valid()
    ensures DrawnSoFar(result.bits, result.width, result.height, g, inputWidth, inputHeight, p, y, x + 1)
  {
    ghost var before := result.bits;
    if dark {
      MulMonotone(x + 1, inputWidth, multiple);
      MulMonotone(y + 1, inputHeight, multiple);
      assert result.RegionFits(outputX, outputY, multiple, multiple);
      result.SetRegion(OneDimensionalWriter.Black, outputX, outputY, multiple, multiple);
    }
    forall r, c | 0 <= r < result.height && 0 <= c < result.width
      ensures CellOf(result.bits, result.width, result.height, r, c) ==
              DrawnBy(g, inputWidth, inputHeight, p, y, x + 1, r, c)
    {
      ModuleStep(g, inputWidth, inputHeight, p, y, x, r, c);
      assert CellOf(before, result.width, result.height, r, c) == DrawnBy(g, inputWidth, inputHeight, p, y, x, r, c);
    }
  }

  /** One iteration of `render`'s outer loop: the modules of row y, left
      to right. */
  method DrawRow(result: BitMatrix, source: ByteMatrix, y: int, leftPadding: int, outputY: int, multiple: int,
                 ghost p: Placement)
    requires result.Valid() && source.Valid() && 0 <= y < source.height
    requires p.multiple >= 1 && multiple == p.multiple && leftPadding == p.leftPadding
    requires 0 <= p.leftPadding && p.leftPadding + source.width * p.multiple <= result.width
    requires 0 <= p.topPadding && p.topPadding + source.height * p.multiple <= result.height
    requires outputY == p.topPadding + y * multiple
    requires DrawnSoFar(result.bits, result.width, result.height, source.bytes, source.width, source.height, p, y, 0)
    modifies result
    ensures result.Valid()
    ensures DrawnSoFar(result.bits, result.width, result.height, source.bytes, source.width, source.height, p,
                       y + 1, 0)
  {
    var outputX := leftPadding;
    for inputX := 0 to source.width
      invariant result.Valid()
      invariant outputX == leftPadding + inputX * multiple
      invariant DrawnSoFar(result.bits, result.width, result.height, source.bytes, source.width, source.height, p,
                           y, inputX)
    {
      DrawModule(result, source.Value(inputX, y) == 1, outputX, outputY, multiple,
        source.bytes, source.width, source.height, p, y, inputX);
      outputX := outputX + multiple;
    }
    forall row, c | 0 <= row < result.height && 0 <= c < result.width
      ensures DrawnBy(source.bytes, source.width, source.height, p, y, source.width, row, c) ==
              DrawnBy(source.bytes, source.width, source.height, p, y + 1, 0, row, c)
    {
      RowDone(source.bytes, source.width, source.height, p, y, row, c);
    }
  }

  /** `render(barcode:width:height:margin:)`: IllegalArgument when the code
      has no matrix; otherwise a white matrix of the placement's size on
      which every dark module is drawn as a `multiple` x `multiple` black
      square. */
  method Render(code: QRCode, width: int, height: int, margin: int) returns (r: Result<BitMatrix>)
    requires code.matrix.Some? ==> Renderable(code.matrix.value, margin)
    ensures r.Err? <==> code.matrix.None?
    ensures r.Err? ==> r.error == IllegalArgument
    ensures r.Ok? ==> fresh(r.value) && Drawing(r.value, code.matrix.value, width, height, margin)
  {
    if code.matrix.None? {
      return Err(IllegalArgument);
    }
    var source := code.matrix.value;
    var inputWidth := source.width;
    var inputHeight := source.height;
    var qrWidth := inputWidth + margin * 2;
    var qrHeight := inputHeight + margin * 2;
    var outputWidth := OneDimensionalWriter.Max(width, qrWidth);
    var outputHeight := OneDimensionalWriter.Max(height, qrHeight);
    var multiple := Min(outputWidth / qrWidth, outputHeight / qrHeight);
    var leftPadding := (outputWidth - inputWidth * multiple) / 2;
    var topPadding := (outputHeight - inputHeight * multiple) / 2;
    ghost var p := Place(inputWidth, inputHeight, width, height, margin);
    assert p == Placement(outputWidth, outputHeight, multiple, leftPadding, topPadding);
    var result := new BitMatrix(outputWidth, outputHeight, OneDimensionalWriter.White);
    forall row, c | 0 <= row < outputHeight && 0 <= c < outputWidth
      ensures CellOf(result.bits, outputWidth, outputHeight, row, c) ==
              DrawnBy(source.bytes, inputWidth, inputHeight, p, 0, 0, row, c)
    {
      IndexBounds(outputWidth, outputHeight, row, c);
      DrawnEnds(source.bytes, inputWidth, inputHeight, p, row, c);
    }
    var outputY := topPadding;
    for inputY := 0 to inputHeight
      invariant result.Valid() && result.width == outputWidth && result.height == outputHeight
      invariant outputY == topPadding + inputY * multiple
      invariant DrawnSoFar(result.bits, outputWidth, outputHeight, source.bytes, inputWidth, inputHeight, p, inputY, 0)
    {
      DrawRow(result, source, inputY, leftPadding, outputY, multiple, p);
      outputY := outputY + multiple;
    }
    forall row, c | 0 <= row < outputHeight && 0 <= c < outputWidth
      ensures DrawnBy(source.bytes, inputWidth, inputHeight, p, inputHeight, 0, row, c) ==
              ModuleAt(source.bytes, inputWidth, inputHeight, p, row, c)
    {
      DrawnEnds(source.bytes, inputWidth, inputHeight, p, row, c);
    }
    return Ok(result);
  }

  /** The level `encode` asks for: the hints' level, else L. */
  function LevelFor(options: Option<QREncoder.EncodingHints>): (level: ErrorCorrectionLevel)
    ensures QREncoder.ParseErrorCorrectionLevel(Some(level), options) == level
    ensures options.None? ==> level == DefaultErrorCorrectionLevel
  {
    if options.Some? && options.value.errorCorrection.Some? then options.value.errorCorrection.value
    else DefaultErrorCorrectionLevel
  }

  /** The argument checks of `encode`, in the source's order: empty
      contents, a format other than QR Code, a size that is not positive.
      They pass exactly on non-empty contents, the QR Code format and a
      positive size; only the format check throws InvalidFormat. */
  function ArgumentError(contents: string, format: BarcodeFormat, width: int, height: int): (e: Option<ZXError>)
    ensures e.None? <==> contents != [] && format == QRCodeFormat && width > 0 && height > 0
    ensures e.Some? ==> (e.value == InvalidFormat <==> contents != [] && format != QRCodeFormat)
    ensures e.Some? ==> e.value in {InvalidFormat, Unspecified}
  {
    if contents == [] then Some(Unspecified)
    else if format != QRCodeFormat then Some(InvalidFormat)
    else if width <= 0 || height <= 0 then Some(Unspecified)
    else None
  }

  /** `encode(contents:format:width:height:options:)`: the argument checks,
      then the encoder with the hints' level (or L) and the hints, then
      `render` with the default margin. The encoder's outside calls come in
      as in `QREncoder.Encode`; what the encoder needs is asked only of
      arguments that pass the checks. */
  method Encode(contents: string, format: BarcodeFormat, width: int, height: int,
                options: Option<QREncoder.EncodingHints>, conv: QREncoder.Conversions, field: GenericGF.GenericGF,
                lookupMaskPattern: (seq<bool>, ErrorCorrectionLevel, QRVersions.Version) -> Result<int>,
                buildMatrix: (seq<bool>, ErrorCorrectionLevel, QRVersions.Version, int) -> Result<ByteMatrix>)
    returns (r: Result<BitMatrix>)
    requires IsQRField(field) && QREncoder.ShiftJisBytes(conv.shiftJisBytes)
    requires ArgumentError(contents, format, width, height).None? ==>
      QREncoder.Encodable(contents, Some(LevelFor(options)), None, None, options, conv, field)
    requires ArgumentError(contents, format, width, height).None? ==>
      var e := QREncoder.Encoded(contents, Some(LevelFor(options)), None, None, options, conv, field,
        lookupMaskPattern, buildMatrix);
      e.Ok? ==> Renderable(e.value.matrix, DefaultMargin)
    ensures ArgumentError(contents, format, width, height).Some? ==>
      r == Err(ArgumentError(contents, format, width, height).value)
    ensures ArgumentError(contents, format, width, height).None? ==>
      var e := QREncoder.Encoded(contents, Some(LevelFor(options)), None, None, options, conv, field,
        lookupMaskPattern, buildMatrix);
      && (r.Err? <==> e.Err?)
      && (r.Err? ==> r.error == e.error)
      && (r.Ok? ==> fresh(r.value) && Renderable(e.value.matrix, DefaultMargin) &&
                    Drawing(r.value, e.value.matrix, width, height, DefaultMargin))
  {
    if |contents| == 0 {
      return Err(Unspecified);
    }
    if format != QRCodeFormat {
      return Err(InvalidFormat);
    }
    if width <= 0 || height <= 0 {
      return Err(Unspecified);
    }
    assert ArgumentError(contents, format, width, height).None?;
    r := EncodeAndRender(contents, width, height, options, conv, field, lookupMaskPattern, buildMatrix);
  }

  /** The part of `encode` after the argument checks: the encoder with the
      hints' level (or L), then `render` with the default margin. */
  method EncodeAndRender(contents: string, width: int, height: int,
                         options: Option<QREncoder.EncodingHints>, conv: QREncoder.Conversions, field: GenericGF.GenericGF,
                         lookupMaskPattern: (seq<bool>, ErrorCorrectionLevel, QRVersions.Version) -> Result<int>,
                         buildMatrix: (seq<bool>, ErrorCorrectionLevel, QRVersions.Version, int) -> Result<ByteMatrix>)
    returns (r: Result<BitMatrix>)
    requires IsQRField(field) && QREncoder.ShiftJisBytes(conv.shiftJisBytes)
    requires QREncoder.Encodable(contents, Some(LevelFor(options)), None, None, options, conv, field)
    requires var e := QREncoder.Encoded(contents, Some(LevelFor(options)), None, None, options, conv, field,
        lookupMaskPattern, buildMatrix);
      e.Ok? ==> Renderable(e.value.matrix, DefaultMargin)
    ensures var e := QREncoder.Encoded(contents, Some(LevelFor(options)), None, None, options, conv, field,
        lookupMaskPattern, buildMatrix);
      && (r.Err? <==> e.Err?)
      && (r.Err? ==> r.error == e.error)
      && (r.Ok? ==> fresh(r.value) && Renderable(e.value.matrix, DefaultMargin) &&
                    Drawing(r.value, e.value.matrix, width, height, DefaultMargin))
  {
    var errorCorrectionLevel := LevelFor(options);
    var margin := DefaultMargin;
    var qrCode := QREncoder.Encode(contents, Some(errorCorrectionLevel), None, None, options, conv, field,
      lookupMaskPattern, buildMatrix);
    if qrCode.Err? {
      return Err(qrCode.error);
    }
    ghost var e := QREncoder.Encoded(contents, Some(errorCorrectionLevel), None, None, options, conv, field,
      lookupMaskPattern, buildMatrix);
    // The matrix the encoder's outside call made existed before the call
    // and is unchanged by it.
    assert e.Ok? && old(allocated(e.value.matrix));
    r := Render(qrCode.value, width, height, margin);
  }
}
