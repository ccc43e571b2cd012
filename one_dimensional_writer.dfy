/** ZXOneDimensionalCodeWriter.swift: the part of every 1D writer that
    checks the arguments and scales a row of bars onto a bit matrix. */
module OneDimensionalWriter {
  import opened Errors
  import opened Bits
  import opened BitMatrices

  /** `DefaultMargin`: the quiet zone, in modules, added to the barcode's
      width. */
  const DefaultMargin: int := 10

  const Black: bool := true
  const White: bool := false

  /** The base class's `encode(contents:)`: a writer that does not override
      it produces no bars. */
  function BaseEncode(contents: seq<char>): Result<seq<bool>>
  {
    Ok([])
  }

  /** The argument checks of `encode(contents:format:width:height:options:)`
      in the source's order, followed by the outcome of the format-specific
      `encode(contents:)`. */
  function CheckedBarcode(contents: seq<char>, width: int, height: int, raw: Result<seq<bool>>): (r: Result<seq<bool>>)
    ensures contents == [] ==> r == Err(Unspecified)
    ensures contents != [] && (width <= 0 || height <= 0) ==> r == Err(Unspecified)
    ensures contents != [] && width > 0 && height > 0 ==> r == raw
  {
    if contents == [] then Err(Unspecified)
    else if width <= 0 || height <= 0 then Err(Unspecified)
    else raw
  }

  function Max(a: int, b: int): int
  {
    if a >= b then a else b
  }

  /** The geometry `render` works out. */
  datatype Layout = Layout(outputWidth: int, outputHeight: int, multiple: int, leftPadding: int)

  /** `render`'s sizes: the output is at least as wide as the barcode with
      its margin and at least one row high; `multiple` is the largest whole
      scale at which the barcode with its margin fits the output width; the
      scaled bars are centred, any odd pixel going to the right. */
  function RenderLayout(inputWidth: nat, width: int, height: int, margin: int): (l: Layout)
    requires margin >= 0 && inputWidth + margin > 0
    ensures l.outputWidth == Max(width, inputWidth + margin) && l.outputHeight == Max(1, height)
    ensures l.multiple >= 1
    ensures l.multiple * (inputWidth + margin) <= l.outputWidth < (l.multiple + 1) * (inputWidth + margin)
    ensures 0 <= l.leftPadding && l.leftPadding + inputWidth * l.multiple <= l.outputWidth
    ensures l.outputWidth - (2 * l.leftPadding + inputWidth * l.multiple) in {0, 1}
  {
    var fullWidth := inputWidth + margin;
    var outputWidth := Max(width, fullWidth);
    var multiple := outputWidth / fullWidth;
    ScaleBounds(outputWidth, fullWidth, inputWidth);
    Layout(outputWidth, Max(1, height), multiple, (outputWidth - inputWidth * multiple) / 2)
  }

  lemma ScaleBounds(outputWidth: int, fullWidth: int, inputWidth: nat)
    requires 0 < fullWidth <= outputWidth && inputWidth <= fullWidth
    ensures outputWidth / fullWidth >= 1
    ensures (outputWidth / fullWidth) * fullWidth <= outputWidth < (outputWidth / fullWidth + 1) * fullWidth
    ensures inputWidth * (outputWidth / fullWidth) <= outputWidth
  {
    var q := outputWidth / fullWidth;
    assert q * fullWidth + outputWidth % fullWidth == outputWidth;
    MulMonotone(inputWidth, fullWidth, q);
  }

  /** Whether column c is black once the first k bars are drawn, bar i
      covering the `multiple` columns from leftPadding + i * multiple. */
  function Painted(barcode: seq<bool>, leftPadding: int, multiple: int, k: nat, c: int): bool
    requires k <= |barcode|
  {
    if k == 0 then false
    else if leftPadding + (k - 1) * multiple <= c < leftPadding + (k - 1) * multiple + multiple then barcode[k - 1]
    else Painted(barcode, leftPadding, multiple, k - 1, c)
  }

  /** The column view of a rendered barcode: column c is black exactly when
      it lies in the scaled span of the bars and the bar it falls in, number
      (c - leftPadding) / multiple, is black. */
  function BarAt(barcode: seq<bool>, leftPadding: int, multiple: int, c: int): bool
    requires multiple >= 1
  {
    if leftPadding <= c < leftPadding + |barcode| * multiple then
      QuotientBelow(c - leftPadding, multiple, |barcode|);
      barcode[(c - leftPadding) / multiple]
    else false
  }

  /** Drawing the bars one after another gives the column view. */
  lemma {:induction false} PaintedIsBarAt(barcode: seq<bool>, leftPadding: int, multiple: int, k: nat, c: int)
    requires multiple >= 1 && k <= |barcode|
    ensures Painted(barcode, leftPadding, multiple, k, c) ==
      (leftPadding <= c < leftPadding + k * multiple && barcode[(c - leftPadding) / multiple])
  {
    if k > 0 {
      PaintedIsBarAt(barcode, leftPadding, multiple, k - 1, c);
      var x := c - leftPadding;
      assert (k - 1) * multiple + multiple == k * multiple;
      if (k - 1) * multiple <= x < k * multiple {
        QuotientIs(x, multiple, k - 1);
      } else if 0 <= x < (k - 1) * multiple {
        QuotientBelow(x, multiple, k - 1);
      }
    }
  }

  /** Bar i, when black, darkens exactly its `multiple` columns; columns
      outside the span of the bars stay white. */
  lemma BarColumns(barcode: seq<bool>, leftPadding: int, multiple: int, i: int, c: int)
    requires multiple >= 1
    ensures 0 <= i < |barcode| && leftPadding + i * multiple <= c < leftPadding + i * multiple + multiple ==>
      BarAt(barcode, leftPadding, multiple, c) == barcode[i]
    ensures c < leftPadding || leftPadding + |barcode| * multiple <= c ==> !BarAt(barcode, leftPadding, multiple, c)
  {
    if 0 <= i < |barcode| && leftPadding + i * multiple <= c < leftPadding + i * multiple + multiple {
      QuotientIs(c - leftPadding, multiple, i);
      MulMonotone(i + 1, |barcode|, multiple);
    }
  }

  /** m is the rendering of the bars: the layout's size, every row the
      column view of the bars. */
  ghost predicate Rendering(m: BitMatrix, barcode: seq<bool>, width: int, height: int, margin: int)
    reads m
    requires margin >= 0 && |barcode| + margin > 0
  {
    var l := RenderLayout(|barcode|, width, height, margin);
    m.Valid() && m.width == l.outputWidth && m.height == l.outputHeight &&
    forall r, c :: 0 <= r < m.height && 0 <= c < m.width ==>
      CellOf(m.bits, m.width, m.height, r, c) == BarAt(barcode, l.leftPadding, l.multiple, c)
  }

  /** `render(barcode:width:height:margin:)`: a white matrix of the layout's
      size on which every black bar is drawn as a `multiple`-wide stripe
      through all rows. */
  method Render(barcode: seq<bool>, width: int, height: int, margin: int) returns (result: BitMatrix)
    requires margin >= 0 && |barcode| + margin > 0
    ensures fresh(result) && Rendering(result, barcode, width, height, margin)
  {
    var inputWidth := |barcode|;
    var fullWidth := inputWidth + margin;
    var outputWidth := Max(width, fullWidth);
    var outputHeight := Max(1, height);
    var multiple := outputWidth / fullWidth;
    var leftPadding := (outputWidth - inputWidth * multiple) / 2;
    ghost var l := RenderLayout(inputWidth, width, height, margin);
    assert l == Layout(outputWidth, outputHeight, multiple, leftPadding);
    result := new BitMatrix(outputWidth, outputHeight, White);
    forall r, c | 0 <= r < outputHeight && 0 <= c < outputWidth
      ensures !CellOf(result.bits, outputWidth, outputHeight, r, c)
    {
      IndexBounds(outputWidth, outputHeight, r, c);
    }
    var outputX := leftPadding;
    for inputX := 0 to inputWidth
      invariant result.Valid() && result.width == outputWidth && result.height == outputHeight
      invariant outputX == leftPadding + inputX * multiple
      invariant PaintedSoFar(result.bits, barcode, outputWidth, outputHeight, leftPadding, multiple, inputX)
    {
      DrawBar(result, barcode, leftPadding, multiple, inputX, outputX);
      outputX := outputX + multiple;
    }
    forall c | 0 <= c < outputWidth
      ensures Painted(barcode, leftPadding, multiple, inputWidth, c) == BarAt(barcode, leftPadding, multiple, c)
    {
      PaintedIsBarAt(barcode, leftPadding, multiple, inputWidth, c);
    }
  }

  /** The cells of a matrix of the given size hold the first k bars. */
  ghost predicate PaintedSoFar(bits: seq<bool>, barcode: seq<bool>, width: int, height: int, leftPadding: int,
                               multiple: int, k: nat)
    requires 0 < width && |bits| == width * height && k <= |barcode|
  {
    forall r, c :: 0 <= r < height && 0 <= c < width ==>
      CellOf(bits, width, height, r, c) == Painted(barcode, leftPadding, multiple, k, c)
  }

  /** One iteration of `render`'s loop: bar k, if black, as a full-height
      stripe at outputX. */
  method DrawBar(result: BitMatrix, barcode: seq<bool>, leftPadding: int, multiple: int, k: nat, outputX: int)
    requires result.Valid() && k < |barcode| && multiple >= 1 && leftPadding >= 0
    requires outputX == leftPadding + k * multiple && leftPadding + |barcode| * multiple <= result.width
    requires PaintedSoFar(result.bits, barcode, result.width, result.height, leftPadding, multiple, k)
    modifies result
    ensures result.Valid()
    ensures PaintedSoFar(result.bits, barcode, result.width, result.height, leftPadding, multiple, k + 1)
  {
    ghost var before := result.bits;
    if barcode[k] {
      MulMonotone(k + 1, |barcode|, multiple);
      assert result.RegionFits(outputX, 0, multiple, result.height);
      result.SetRegion(Black, outputX, 0, multiple, result.height);
    }
    forall r, c | 0 <= r < result.height && 0 <= c < result.width
      ensures CellOf(result.bits, result.width, result.height, r, c) == Painted(barcode, leftPadding, multiple, k + 1, c)
    {
      PaintedSpan(barcode, leftPadding, multiple, k, c);
      assert CellOf(before, result.width, result.height, r, c) == Painted(barcode, leftPadding, multiple, k, c);
    }
  }

  /** Only the columns of the bars drawn so far can be black. */
  lemma {:induction false} PaintedSpan(barcode: seq<bool>, leftPadding: int, multiple: int, k: nat, c: int)
    requires multiple >= 0 && k <= |barcode|
    ensures Painted(barcode, leftPadding, multiple, k, c) ==> leftPadding <= c < leftPadding + k * multiple
  {
    if k > 0 {
      PaintedSpan(barcode, leftPadding, multiple, k - 1, c);
      MulMonotone(0, k - 1, multiple);
      assert (k - 1) * multiple + multiple == k * multiple;
    }
  }

  /** `encode(contents:format:width:height:options:)`: the argument checks,
      then the bars `raw` that the format's own `encode(contents:)` gives,
      rendered with the default margin. */
  method Encode(contents: seq<char>, width: int, height: int, raw: Result<seq<bool>>) returns (r: Result<BitMatrix>)
    ensures r.Err? <==> CheckedBarcode(contents, width, height, raw).Err?
    ensures r.Err? ==> r.error == CheckedBarcode(contents, width, height, raw).error
    ensures r.Ok? ==> raw.Ok? && fresh(r.value) && Rendering(r.value, raw.value, width, height, DefaultMargin)
  {
    if |contents| == 0 {
      return Err(Unspecified);
    }
    if width <= 0 || height <= 0 {
      return Err(Unspecified);
    }
    var sideMargin := DefaultMargin;
    if raw.Err? {
      return Err(raw.error);
    }
    var matrix := Render(raw.value, width, height, sideMargin);
    return Ok(matrix);
  }

  /** A writer that keeps the base `encode(contents:)` renders an all-white
      matrix, as wide as the requested width or the margin, whichever is
      larger. */
  lemma BaseRendersWhite(contents: seq<char>, width: int, height: int, c: int)
    ensures var l := RenderLayout(|BaseEncode(contents).value|, width, height, DefaultMargin);
      l.outputWidth == Max(width, DefaultMargin) && l.multiple >= 1 &&
      !BarAt(BaseEncode(contents).value, l.leftPadding, l.multiple, c)
  {
  }
}
