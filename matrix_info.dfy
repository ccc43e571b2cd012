/** ZXMatrixUtils.swift, format and version information: the BCH-protected
    words `build` writes next to the finder patterns. Each placement is a
    fixed sequence of `setValue` calls; the resulting matrix is stated as
    those writes applied in order, and lemmas say which bit each cell ends
    up holding. */
module MatrixInfo {
  import opened Errors
  import opened Bits
  import opened ByteMatrices
  import opened ErrorCorrectionLevels
  import QRVersions
  import QRCodes
  import BitArray
  import Bch
  import FormatInformations
  import MatrixPatterns

  /** `FormatInfoMaxBitWidth` and `VersionInfoMaxBitWidth`. */
  const FormatInfoMaxBitWidth := 15
  const VersionInfoMaxBitWidth := 18

  /** `FormatInfoCoordinates`: the top-left copy of the format word, as
      (column, row); column and row 6 are skipped for the timing lines. */
  const FormatInfoCoordinates: seq<(int, int)> :=
    [(8, 0), (8, 1), (8, 2), (8, 3), (8, 4), (8, 5), (8, 7), (8, 8),
     (7, 8), (5, 8), (4, 8), (3, 8), (2, 8), (1, 8), (0, 8)]

  /** `FormatInfoCoordinates[idx]` in closed form: up column 8 for the first
      eight entries, then left along row 8. */
  function FormatInfoPosition(idx: int): (p: (int, int))
    ensures 0 <= p.0 <= 8 && 0 <= p.1 <= 8 && (p.0 == 8 <==> idx < 8)
  {
    if idx < 6 then (8, if idx < 0 then 0 else idx)
    else if idx < 8 then (8, idx + 1)
    else if idx == 8 then (7, 8)
    else (if idx > 14 then 0 else 14 - idx, 8)
  }

  lemma FormatInfoCoordinatesShape()
    ensures |FormatInfoCoordinates| == 15
    ensures forall i :: 0 <= i < 15 ==> FormatInfoCoordinates[i] == FormatInfoPosition(i)
  {
  }

  /** `FormatInfoCoordinates[idx]`. */
  method FormatInfoCoordinate(idx: int) returns (p: (int, int))
    requires 0 <= idx < 15
    ensures p == FormatInfoPosition(idx)
  {
    FormatInfoCoordinatesShape();
    p := FormatInfoCoordinates[idx];
  }

  /** The fifteen positions are distinct. */
  lemma FormatInfoPositionsDistinct(i: int, j: int)
    requires 0 <= i < j < 15
    ensures FormatInfoPosition(i) != FormatInfoPosition(j)
  {
  }

  // ---------------------------------------------------------------------
  // A placement as a list of writes

  /** One `setValue(_: Bool, column:row:)`. */
  datatype Write = Write(x: int, y: int, bit: bool)

  /** The byte `setValue(_: Bool, ...)` stores. */
  function BitByte(b: bool): (r: uint8)
    ensures r != InvalidByteValue && (r == 1 <==> b) && (r == 0 <==> !b)
  {
    if b then 1 else 0
  }

  /** The grid after one write to a cell inside it. */
  function Put(g: seq<seq<uint8>>, w: Write): (r: seq<seq<uint8>>)
    ensures |r| == |g| && forall y :: 0 <= y < |g| ==> |r[y]| == |g[y]|
  {
    if 0 <= w.y < |g| && 0 <= w.x < |g[w.y]| then g[w.y := g[w.y][w.x := BitByte(w.bit)]] else g
  }

  /** The grid after the writes, in order. */
  function ApplyWrites(g: seq<seq<uint8>>, ws: seq<Write>): (r: seq<seq<uint8>>)
    ensures |r| == |g| && forall y :: 0 <= y < |g| ==> |r[y]| == |g[y]|
    decreases |ws|
  {
    if ws == [] then g else Put(ApplyWrites(g, ws[..|ws| - 1]), ws[|ws| - 1])
  }

  lemma ApplyWritesSnoc(g: seq<seq<uint8>>, ws: seq<Write>, w: Write)
    ensures ApplyWrites(g, ws + [w]) == Put(ApplyWrites(g, ws), w)
  {
    assert (ws + [w])[..|ws|] == ws;
  }

  /** `setValue(bit, column: x, row: y)` on a matrix that holds g after ws. */
  method WriteCell(m: ByteMatrix, ghost g: seq<seq<uint8>>, ghost ws: seq<Write>, bit: bool, x: int, y: int)
    requires m.Valid() && 0 <= x < m.width && 0 <= y < m.height && m.bytes == ApplyWrites(g, ws)
    modifies m
    ensures m.Valid() && m.bytes == ApplyWrites(g, ws + [Write(x, y, bit)])
  {
    m.SetBool(bit, x, y);
    ApplyWritesSnoc(g, ws, Write(x, y, bit));
  }

  /** `setValue(bit, column: x, row: y)` as one `Put` on the matrix's
      grid. */
  method PutCell(m: ByteMatrix, bit: bool, x: int, y: int)
    requires m.Valid() && 0 <= x < m.width && 0 <= y < m.height
    modifies m
    ensures m.Valid() && m.bytes == Put(old(m.bytes), Write(x, y, bit))
  {
    m.SetBool(bit, x, y);
  }

  lemma ApplyWritesPair(g: seq<seq<uint8>>, ws: seq<Write>, a: Write, b: Write)
    ensures ApplyWrites(g, ws + [a, b]) == Put(Put(ApplyWrites(g, ws), a), b)
  {
    var once, twice := ws + [a], ws + [a, b];
    assert twice[..|twice| - 1] == once && twice[|twice| - 1] == b;
    assert once[..|once| - 1] == ws && once[|once| - 1] == a;
  }

  /** The index of the last write to (x, y), or -1 if there is none. */
  function LastWriteTo(ws: seq<Write>, x: int, y: int): (r: int)
    ensures -1 <= r < |ws|
    ensures r >= 0 ==> ws[r].x == x && ws[r].y == y
    ensures forall j :: r < j < |ws| ==> !(ws[j].x == x && ws[j].y == y)
    decreases |ws|
  {
    if ws == [] then -1
    else if ws[|ws| - 1].x == x && ws[|ws| - 1].y == y then |ws| - 1
    else LastWriteTo(ws[..|ws| - 1], x, y)
  }

  /** The last write to a cell decides its value; a cell nobody writes keeps it. */
  lemma {:induction false} ApplyWritesCell(g: seq<seq<uint8>>, ws: seq<Write>, x: int, y: int)
    requires 0 <= y < |g| && 0 <= x < |g[y]|
    ensures var i := LastWriteTo(ws, x, y);
      ApplyWrites(g, ws)[y][x] == if i >= 0 then BitByte(ws[i].bit) else g[y][x]
    decreases |ws|
  {
    if ws != [] {
      var prefix := ws[..|ws| - 1];
      ApplyWritesCell(g, prefix, x, y);
      if !(ws[|ws| - 1].x == x && ws[|ws| - 1].y == y) {
        assert LastWriteTo(ws, x, y) == LastWriteTo(prefix, x, y);
      }
    }
  }

  /** A cell holds the bit of write i when no later write hits it. */
  lemma LastWriteWins(g: seq<seq<uint8>>, ws: seq<Write>, i: int)
    requires 0 <= i < |ws| && 0 <= ws[i].y < |g| && 0 <= ws[i].x < |g[ws[i].y]|
    requires forall j :: i < j < |ws| ==> !(ws[j].x == ws[i].x && ws[j].y == ws[i].y)
    ensures ApplyWrites(g, ws)[ws[i].y][ws[i].x] == BitByte(ws[i].bit)
  {
    ApplyWritesCell(g, ws, ws[i].x, ws[i].y);
  }

  /** Bitwise exclusive or of two bit arrays of one length. */
  function XorBits(a: seq<bool>, b: seq<bool>): (r: seq<bool>)
    requires |a| == |b|
    ensures |r| == |a| && forall i :: 0 <= i < |a| ==> r[i] == (a[i] != b[i])
  {
    if a == [] then [] else [a[0] != b[0]] + XorBits(a[1..], b[1..])
  }

  lemma XorBitsCancel(a: seq<bool>, b: seq<bool>)
    requires |a| == |b|
    ensures XorBits(XorBits(a, b), b) == a
  {
  }

  // ---------------------------------------------------------------------
  // Format information

  /** `(ecLevel.bits << 3) | maskPattern`. */
  function FormatInfoValue(level: ErrorCorrectionLevel, maskPattern: int): (r: int)
    requires 0 <= maskPattern < 8
    ensures 0 <= r < 32 && r / 8 == ErrorCorrectionLevels.Bits(level) && r % 8 == maskPattern
  {
    OrLowBits(ErrorCorrectionLevels.Bits(level) * 8, maskPattern, 3);
    Or(ErrorCorrectionLevels.Bits(level) * 8, maskPattern)
  }

  /** `calculateBCHCode(input: formatInfo, poly: FormatInfoPoly)`. */
  function FormatBch(formatInfo: int): int
  {
    Bch.BchReduce(Bch.BchStart(formatInfo, Bch.FormatInfoPoly), Bch.FormatInfoPoly)
  }

  /** The fifteen format bits before masking: the five-bit format value, then
      ten BCH bits. */
  function FormatInfoBits(formatInfo: int): (r: seq<bool>)
    ensures |r| == FormatInfoMaxBitWidth
  {
    BitArray.MakeBitArray(formatInfo, 5) + BitArray.MakeBitArray(FormatBch(formatInfo), 10)
  }

  /** `FormatInfoMaskPattern` as fifteen bits. */
  function FormatMaskBits(): (r: seq<bool>)
    ensures |r| == FormatInfoMaxBitWidth
  {
    BitArray.MakeBitArray(FormatInformations.FormatInfoMaskQR, 15)
  }

  /** The word written: the format bits masked with 0x5412. */
  function FormatWord(formatInfo: int): (r: seq<bool>)
    ensures |r| == FormatInfoMaxBitWidth
  {
    XorBits(FormatInfoBits(formatInfo), FormatMaskBits())
  }

  /** The k-th `setValue` of the placement loop: iteration idx < 8 writes bit
      14 - idx to `FormatInfoCoordinates[idx]`, to (width - 1 - idx, 8) and
      to (8, height - 7 + (idx - 8)); each later iteration writes only the
      first. */
  function FormatWrite(word: seq<bool>, width: int, height: int, k: nat): Write
    requires |word| == 15 && k < 31
  {
    if k < 24 then
      var idx := k / 3;
      var bit := word[14 - idx];
      if k % 3 == 0 then Write(FormatInfoPosition(idx).0, FormatInfoPosition(idx).1, bit)
      else if k % 3 == 1 then Write(width - 1 - idx, 8, bit)
      else Write(8, height - 7 + (idx - 8), bit)
    else
      var idx := k - 16;
      Write(FormatInfoPosition(idx).0, FormatInfoPosition(idx).1, word[14 - idx])
  }

  /** The first n writes of the placement loop. */
  function FormatWrites(word: seq<bool>, width: int, height: int, n: nat): (ws: seq<Write>)
    requires |word| == 15 && n <= 31
    ensures |ws| == n
  {
    if n == 0 then [] else FormatWrites(word, width, height, n - 1) + [FormatWrite(word, width, height, n - 1)]
  }

  lemma {:induction false} FormatWritesAt(word: seq<bool>, width: int, height: int, n: nat)
    requires |word| == 15 && n <= 31
    ensures forall k :: 0 <= k < n ==> FormatWrites(word, width, height, n)[k] == FormatWrite(word, width, height, k)
  {
    if n > 0 {
      FormatWritesAt(word, width, height, n - 1);
    }
  }

  /** The number of writes before iteration idx. */
  function FormatWritesBefore(idx: nat): nat
  {
    if idx <= 8 then 3 * idx else idx + 16
  }

  /** The writes of iteration idx of the placement loop. */
  function FormatIteration(word: seq<bool>, width: int, height: int, idx: nat): (ws: seq<Write>)
    requires |word| == 15 && idx < 15
    ensures |ws| == FormatWritesBefore(idx + 1) - FormatWritesBefore(idx)
  {
    var bit := word[14 - idx];
    var first := Write(FormatInfoPosition(idx).0, FormatInfoPosition(idx).1, bit);
    if idx < 8 then [first, Write(width - 1 - idx, 8, bit), Write(8, height - 7 + (idx - 8), bit)]
    else [first]
  }

  lemma FormatIterationIs(word: seq<bool>, width: int, height: int, idx: nat, bit: bool, p: (int, int))
    requires |word| == 15 && idx < 15 && bit == word[14 - idx] && p == FormatInfoPosition(idx)
    ensures FormatIteration(word, width, height, idx) ==
      if idx < 8 then [Write(p.0, p.1, bit), Write(width - 1 - idx, 8, bit), Write(8, height - 7 + (idx - 8), bit)]
      else [Write(p.0, p.1, bit)]
  {
  }

  lemma FormatWritesStep(word: seq<bool>, width: int, height: int, idx: nat)
    requires |word| == 15 && idx < 15
    ensures FormatWrites(word, width, height, FormatWritesBefore(idx + 1)) ==
      FormatWrites(word, width, height, FormatWritesBefore(idx)) + FormatIteration(word, width, height, idx)
  {
    var n := FormatWritesBefore(idx);
    var prefix := FormatWrites(word, width, height, n);
    if idx < 8 {
      var a, b, c := FormatWrite(word, width, height, n), FormatWrite(word, width, height, n + 1),
        FormatWrite(word, width, height, n + 2);
      assert n / 3 == idx && n % 3 == 0;
      assert (n + 1) / 3 == idx && (n + 1) % 3 == 1;
      assert (n + 2) / 3 == idx && (n + 2) % 3 == 2;
      assert FormatIteration(word, width, height, idx) == [a, b, c];
      assert FormatWrites(word, width, height, n + 1) == prefix + [a];
      assert FormatWrites(word, width, height, n + 2) == FormatWrites(word, width, height, n + 1) + [b];
      assert FormatWrites(word, width, height, n + 3) == FormatWrites(word, width, height, n + 2) + [c];
      SnocThree(prefix, a, b, c);
    } else {
      assert FormatWrites(word, width, height, n + 1) == prefix + [FormatWrite(word, width, height, n)];
    }
  }

  lemma SnocThree<T>(s: seq<T>, a: T, b: T, c: T)
    ensures ((s + [a]) + [b]) + [c] == s + [a, b, c]
  {
  }

  /** The format value is at most five bits, so its shift by the bit width of
      `FormatInfoPoly` fits in an `Int`. */
  lemma FormatShiftFits(formatInfo: int)
    requires 0 <= formatInfo < 32
    ensures Bch.ShiftFits(formatInfo, Bch.FormatInfoPoly)
  {
    assert BitLength(Bch.FormatInfoPoly) == 11;
    Bch.ShlMonotone(formatInfo, 31, 11);
    assert Bch.Shl(31, 11) == 63488;
    FormatInformations.Pow2Of63();
  }

  /** `encodeFormatInformation(errorCorrectionLevel:maskPattern:)`: throws
      Unspecified for a mask outside 0..7 before writing anything; otherwise
      writes the masked format word, least significant bit first, to the
      top-left copy and, for the first eight bits, to the top-right and
      bottom-left copies. The BCH call cannot throw (the polynomial is not
      zero), so its error path is not modelled. */
  method EncodeFormatInformation(m: ByteMatrix, level: ErrorCorrectionLevel, maskPattern: int)
    returns (outcome: MatrixPatterns.Outcome)
    requires m.Valid()
    requires QRCodes.IsValidMask(maskPattern) ==> m.width >= 9 && m.height >= 15
    modifies m
    ensures m.Valid()
    ensures !QRCodes.IsValidMask(maskPattern) ==>
      outcome == MatrixPatterns.Failed(Unspecified) && m.bytes == old(m.bytes)
    ensures QRCodes.IsValidMask(maskPattern) ==>
      outcome == MatrixPatterns.Completed &&
      m.bytes == ApplyWrites(old(m.bytes),
        FormatWrites(FormatWord(FormatInfoValue(level, maskPattern)), m.width, m.height, 31))
  {
    if !QRCodes.IsValidMask(maskPattern) {
      return MatrixPatterns.Failed(Unspecified);
    }
    var formatInfo := Or(ErrorCorrectionLevels.Bits(level) * 8, maskPattern);
    assert formatInfo == FormatInfoValue(level, maskPattern);
    var formatInfoBits := BitArray.MakeBitArray(formatInfo, 5);
    FormatShiftFits(formatInfo);
    var bchCode := Bch.CalculateBCHCode(formatInfo, Bch.FormatInfoPoly);
    formatInfoBits := formatInfoBits + BitArray.MakeBitArray(bchCode.value, 10);
    assert formatInfoBits == FormatInfoBits(formatInfo);
    var maskBits := BitArray.MakeBitArray(FormatInformations.FormatInfoMaskQR, 15);
    formatInfoBits := MaskFormatBits(formatInfoBits, maskBits);
    PlaceFormatBits(m, formatInfoBits);
    return MatrixPatterns.Completed;
  }

  /** The loop `formatInfoBits[idx] ^= curr_maskBit` over the mask bits. */
  method MaskFormatBits(formatInfoBits: seq<bool>, maskBits: seq<bool>) returns (r: seq<bool>)
    requires |formatInfoBits| == |maskBits|
    ensures r == XorBits(formatInfoBits, maskBits)
  {
    r := formatInfoBits;
    var i := 0;
    while i < |maskBits|
      invariant 0 <= i <= |maskBits| && |r| == |maskBits|
      invariant forall k :: 0 <= k < i ==> r[k] == (formatInfoBits[k] != maskBits[k])
      invariant forall k :: i <= k < |r| ==> r[k] == formatInfoBits[k]
    {
      r := r[i := r[i] != maskBits[i]];
      i := i + 1;
    }
  }

  /** The placement loop of `encodeFormatInformation`, reading the word from
      its last bit back. */
  method PlaceFormatBits(m: ByteMatrix, formatInfoBits: seq<bool>)
    requires m.Valid() && m.width >= 9 && m.height >= 15 && |formatInfoBits| == 15
    modifies m
    ensures m.Valid()
    ensures m.bytes == ApplyWrites(old(m.bytes), FormatWrites(formatInfoBits, m.width, m.height, 31))
  {
    var bitIndex := |formatInfoBits| - 1;
    for idx := 0 to 15
      invariant bitIndex == 14 - idx
      invariant m.Valid()
      invariant m.bytes == ApplyWrites(old(m.bytes), FormatWrites(formatInfoBits, m.width, m.height, FormatWritesBefore(idx)))
    {
      var bit := formatInfoBits[bitIndex];
      bitIndex := bitIndex - 1;
      var position := FormatInfoCoordinate(idx);
      PlaceFormatBit(m, old(m.bytes), FormatWrites(formatInfoBits, m.width, m.height, FormatWritesBefore(idx)),
        formatInfoBits, idx, bit, position);
      FormatWritesStep(formatInfoBits, m.width, m.height, idx);
    }
  }

  /** The body of the placement loop for one idx: bit 14 - idx goes to the
      top-left copy and, while idx < 8, to the top-right and bottom-left
      copies. */
  method PlaceFormatBit(m: ByteMatrix, ghost g: seq<seq<uint8>>, ghost before: seq<Write>, word: seq<bool>, idx: int,
                        bit: bool, position: (int, int))
    requires m.Valid() && m.width >= 9 && m.height >= 15 && |word| == 15 && 0 <= idx < 15
    requires bit == word[14 - idx] && position == FormatInfoPosition(idx)
    requires m.bytes == ApplyWrites(g, before)
    modifies m
    ensures m.Valid() && m.bytes == ApplyWrites(g, before + FormatIteration(word, m.width, m.height, idx))
  {
    FormatIterationIs(word, m.width, m.height, idx, bit, position);
    ghost var first := Write(position.0, position.1, bit);
    WriteCell(m, g, before, bit, position.0, position.1);
    if idx < 8 {
      var curr := (m.width - 1 - idx, 8);
      ghost var second := Write(curr.0, curr.1, bit);
      WriteCell(m, g, before + [first], bit, curr.0, curr.1);
      curr := (8, m.height - 7 + (idx - 8));
      WriteCell(m, g, before + [first] + [second], bit, curr.0, curr.1);
      SnocThree(before, first, second, Write(curr.0, curr.1, bit));
    }
  }

  /** What a reader recovers from a written word: the word with the mask
      taken off again. */
  function UnmaskFormat(word: seq<bool>): (r: seq<bool>)
    requires |word| == FormatInfoMaxBitWidth
    ensures |r| == FormatInfoMaxBitWidth
  {
    XorBits(word, FormatMaskBits())
  }

  /** The first five unmasked bits parse back to the level and the mask the
      word was made from. */
  lemma FormatWordLevelAndMask(level: ErrorCorrectionLevel, maskPattern: int)
    requires 0 <= maskPattern < 8
    ensures FormatInformations.ParseFormat(ValueMsb(UnmaskFormat(FormatWord(FormatInfoValue(level, maskPattern)))[..5]))
      == FormatInformations.FormatInformation(level, maskPattern)
  {
    var formatInfo := FormatInfoValue(level, maskPattern);
    XorBitsCancel(FormatInfoBits(formatInfo), FormatMaskBits());
    assert UnmaskFormat(FormatWord(formatInfo))[..5] == BitArray.MakeBitArray(formatInfo, 5);
    BitArray.MakeBitArrayValue(formatInfo, 5);
    assert formatInfo == ErrorCorrectionLevels.Bits(level) * 8 + maskPattern;
    FormatInformations.ParseFormatInverse(level, maskPattern);
  }

  /** The last ten unmasked bits are the check bits: for a positive value
      the GF(2) remainder of `(formatInfo << 11) - 1` modulo 0x537, and for
      the value 0 (whose start is -1) all zeros. */
  lemma FormatWordCheckBits(formatInfo: int)
    requires 0 <= formatInfo < 32
    ensures formatInfo == 0 ==> UnmaskFormat(FormatWord(formatInfo))[5..] == Zeros(10)
    ensures formatInfo > 0 ==> ValueMsb(UnmaskFormat(FormatWord(formatInfo))[5..]) < Pow2(10)
    ensures formatInfo > 0 ==> exists q: nat ::
      NatXor(Bch.BchStart(formatInfo, Bch.FormatInfoPoly), ValueMsb(UnmaskFormat(FormatWord(formatInfo))[5..])) ==
      Bch.ClMul(q, Bch.FormatInfoPoly)
  {
    XorBitsCancel(FormatInfoBits(formatInfo), FormatMaskBits());
    var check := FormatBch(formatInfo);
    assert UnmaskFormat(FormatWord(formatInfo))[5..] == BitArray.MakeBitArray(check, 10);
    FormatBchRange(formatInfo);
    BitArray.MakeBitArrayValue(check, 10);
  }

  /** The check value is -1 for the value 0, and otherwise a ten-bit GF(2)
      remainder modulo 0x537 of `(formatInfo << 11) - 1`. */
  lemma FormatBchRange(formatInfo: int)
    requires 0 <= formatInfo < 32
    ensures formatInfo == 0 ==> FormatBch(formatInfo) == -1
    ensures formatInfo > 0 ==> 0 <= FormatBch(formatInfo) < Pow2(10)
    ensures formatInfo > 0 ==> exists q: nat ::
      NatXor(Bch.BchStart(formatInfo, Bch.FormatInfoPoly), FormatBch(formatInfo)) == Bch.ClMul(q, Bch.FormatInfoPoly)
  {
    assert BitLength(Bch.FormatInfoPoly) == 11;
    if formatInfo == 0 {
      assert Bch.BchStart(formatInfo, Bch.FormatInfoPoly) == -1;
    } else {
      Bch.BchCodeIsRemainder(formatInfo, Bch.FormatInfoPoly);
      BitLengthFits(FormatBch(formatInfo), 10);
    }
  }

  // ---------------------------------------------------------------------
  // What the format writes leave behind

  /** The loop iteration that makes write k. */
  function FormatIterationOf(k: nat): (idx: nat)
    requires k < 31
    ensures idx < 15 && FormatWritesBefore(idx) <= k < FormatWritesBefore(idx + 1)
  {
    if k < 24 then k / 3 else k - 16
  }

  /** Where write k goes: the top-left copy, the top-right copy, or the
      bottom-left copy at rows height - 15 .. height - 8. */
  lemma FormatWriteShape(word: seq<bool>, width: int, height: int, k: nat)
    requires |word| == 15 && k < 31
    ensures var w, idx := FormatWrite(word, width, height, k), FormatIterationOf(k);
      w.bit == word[14 - idx] &&
      (k >= 24 || k % 3 == 0 ==> (w.x, w.y) == FormatInfoPosition(idx)) &&
      (k < 24 && k % 3 == 1 ==> w.x == width - 1 - idx && w.y == 8) &&
      (k < 24 && k % 3 == 2 ==> w.x == 8 && w.y == height - 15 + idx)
  {
  }

  /** Write k of the full placement, for a cell no later write touches,
      decides that cell. */
  lemma FormatWriteFinal(g: seq<seq<uint8>>, word: seq<bool>, width: int, height: int, k: nat)
    requires |word| == 15 && k < 31 && IsGrid(g, width, height)
    requires var w := FormatWrite(word, width, height, k); 0 <= w.x < width && 0 <= w.y < height
    requires forall j :: k < j < 31 ==>
               (FormatWrite(word, width, height, j).x, FormatWrite(word, width, height, j).y) !=
               (FormatWrite(word, width, height, k).x, FormatWrite(word, width, height, k).y)
    ensures var w := FormatWrite(word, width, height, k);
      ApplyWrites(g, FormatWrites(word, width, height, 31))[w.y][w.x] == BitByte(w.bit)
  {
    FormatWritesAt(word, width, height, 31);
    LastWriteWins(g, FormatWrites(word, width, height, 31), k);
  }

  /** On a matrix at least 17 modules wide and high, every cell of the
      top-left copy ends up holding its bit of the word. */
  lemma FormatTopLeftIntact(g: seq<seq<uint8>>, word: seq<bool>, width: int, height: int, idx: nat)
    requires |word| == 15 && idx < 15 && width >= 17 && height >= 17 && IsGrid(g, width, height)
    ensures var p := FormatInfoPosition(idx);
      ApplyWrites(g, FormatWrites(word, width, height, 31))[p.1][p.0] == BitByte(word[14 - idx])
  {
    var k := FormatWritesBefore(idx);
    FormatWriteShape(word, width, height, k);
    forall j | k < j < 31
      ensures (FormatWrite(word, width, height, j).x, FormatWrite(word, width, height, j).y) != FormatInfoPosition(idx)
    {
      FormatWriteShape(word, width, height, j);
      var i := FormatIterationOf(j);
      if j >= 24 || j % 3 == 0 {
        FormatInfoPositionsDistinct(idx, i);
      }
    }
    FormatWriteFinal(g, word, width, height, k);
  }

  /** On a matrix at least 17 modules wide, the top-right copy along row 8
      ends up holding bits 14 .. 7 of the word. */
  lemma FormatTopRightIntact(g: seq<seq<uint8>>, word: seq<bool>, width: int, height: int, idx: nat)
    requires |word| == 15 && idx < 8 && width >= 17 && height >= 15 && IsGrid(g, width, height)
    ensures ApplyWrites(g, FormatWrites(word, width, height, 31))[8][width - 1 - idx] == BitByte(word[14 - idx])
  {
    var k := 3 * idx + 1;
    FormatWriteShape(word, width, height, k);
    forall j | k < j < 31
      ensures (FormatWrite(word, width, height, j).x, FormatWrite(word, width, height, j).y) != (width - 1 - idx, 8)
    {
      FormatWriteShape(word, width, height, j);
    }
    FormatWriteFinal(g, word, width, height, k);
  }

  /** On a matrix at least 24 modules high (every version but 1), the
      second copy of bits 14 .. 7 ends up down column 8 at rows
      height - 15 .. height - 8; the last of them lands on the dark module
      at (8, height - 8). */
  lemma FormatBottomLeftIntact(g: seq<seq<uint8>>, word: seq<bool>, width: int, height: int, idx: nat)
    requires |word| == 15 && idx < 8 && width >= 17 && height >= 24 && IsGrid(g, width, height)
    ensures ApplyWrites(g, FormatWrites(word, width, height, 31))[height - 15 + idx][8] == BitByte(word[14 - idx])
  {
    var k := 3 * idx + 2;
    FormatWriteShape(word, width, height, k);
    forall j | k < j < 31
      ensures (FormatWrite(word, width, height, j).x, FormatWrite(word, width, height, j).y) != (8, height - 15 + idx)
    {
      FormatWriteShape(word, width, height, j);
    }
    FormatWriteFinal(g, word, width, height, k);
  }

  /** As written, on a matrix at least 24 modules high, the dark module at
      (8, height - 8) ends up holding bit 7 of the word: the eighth bottom-left
      write lands on it, so the module is light whenever that bit is 0. */
  lemma FormatOverwritesDarkModule(g: seq<seq<uint8>>, word: seq<bool>, width: int, height: int)
    requires |word| == 15 && width >= 17 && height >= 24 && IsGrid(g, width, height)
    ensures ApplyWrites(g, FormatWrites(word, width, height, 31))[height - 8][8] == BitByte(word[7])
  {
    FormatBottomLeftIntact(g, word, width, height, 7);
  }

  /** As written, no write reaches column 8 at rows height - 7 .. height - 1:
      bits 6 .. 0 of the word get no second copy, and those cells keep what
      they held. */
  lemma FormatBottomRowsUntouched(g: seq<seq<uint8>>, word: seq<bool>, width: int, height: int, row: int)
    requires |word| == 15 && width >= 17 && height >= 17 && IsGrid(g, width, height)
    requires height - 7 <= row < height
    ensures ApplyWrites(g, FormatWrites(word, width, height, 31))[row][8] == g[row][8]
  {
    var ws := FormatWrites(word, width, height, 31);
    FormatWritesAt(word, width, height, 31);
    forall k | 0 <= k < 31
      ensures !(ws[k].x == 8 && ws[k].y == row)
    {
      FormatWriteShape(word, width, height, k);
    }
    ApplyWritesCell(g, ws, 8, row);
  }

  // ---------------------------------------------------------------------
  // The placement ISO/IEC 18004 section 7.9.1 lays out

  /** Where the second copy of bit 14 - idx belongs: along row 8 at the top
      right for idx < 8, and down column 8 at rows height - 7 .. height - 1
      for the other seven bits. */
  function IntendedSecondPosition(width: int, height: int, idx: int): (int, int)
  {
    if idx < 8 then (width - 1 - idx, 8) else (8, height - 7 + (idx - 8))
  }

  /** Write k of the intended placement: iteration k / 2 writes bit
      14 - k / 2 to the top-left copy, then to its second copy. */
  function IntendedFormatWrite(word: seq<bool>, width: int, height: int, k: nat): Write
    requires |word| == 15 && k < 30
  {
    var idx := k / 2;
    var p := if k % 2 == 0 then FormatInfoPosition(idx) else IntendedSecondPosition(width, height, idx);
    Write(p.0, p.1, word[14 - idx])
  }

  /** The first n writes of the intended placement. */
  function IntendedFormatWrites(word: seq<bool>, width: int, height: int, n: nat): (ws: seq<Write>)
    requires |word| == 15 && n <= 30
    ensures |ws| == n
  {
    if n == 0 then [] else IntendedFormatWrites(word, width, height, n - 1) + [IntendedFormatWrite(word, width, height, n - 1)]
  }

  lemma {:induction false} IntendedFormatWritesAt(word: seq<bool>, width: int, height: int, n: nat)
    requires |word| == 15 && n <= 30
    ensures forall k :: 0 <= k < n ==>
      IntendedFormatWrites(word, width, height, n)[k] == IntendedFormatWrite(word, width, height, k)
  {
    if n > 0 {
      IntendedFormatWritesAt(word, width, height, n - 1);
    }
  }

  /** In the intended placement, on a matrix at least 17 modules wide and
      high, both copies of every bit of the word end up holding it. */
  lemma IntendedFormatCopies(g: seq<seq<uint8>>, word: seq<bool>, width: int, height: int, idx: nat)
    requires |word| == 15 && idx < 15 && width >= 17 && height >= 17 && IsGrid(g, width, height)
    ensures var placed := ApplyWrites(g, IntendedFormatWrites(word, width, height, 30));
      var p, q := FormatInfoPosition(idx), IntendedSecondPosition(width, height, idx);
      placed[p.1][p.0] == BitByte(word[14 - idx]) && placed[q.1][q.0] == BitByte(word[14 - idx])
  {
    var first, second := 2 * idx, 2 * idx + 1;
    assert first / 2 == idx && first % 2 == 0;
    assert second / 2 == idx && second % 2 == 1;
    IntendedCopyFinal(g, word, width, height, first);
    IntendedCopyFinal(g, word, width, height, second);
  }

  /** Intended write k is the last one to its cell, so the cell holds its
      bit. */
  lemma IntendedCopyFinal(g: seq<seq<uint8>>, word: seq<bool>, width: int, height: int, k: nat)
    requires |word| == 15 && k < 30 && width >= 17 && height >= 17 && IsGrid(g, width, height)
    ensures var w := IntendedFormatWrite(word, width, height, k);
      ApplyWrites(g, IntendedFormatWrites(word, width, height, 30))[w.y][w.x] == BitByte(w.bit)
  {
    var ws := IntendedFormatWrites(word, width, height, 30);
    IntendedFormatWritesAt(word, width, height, 30);
    var w := ws[k];
    forall j | k < j < 30
      ensures !(ws[j].x == w.x && ws[j].y == w.y)
    {
      if j % 2 == 0 && k % 2 == 0 {
        FormatInfoPositionsDistinct(k / 2, j / 2);
      }
    }
    LastWriteWins(g, ws, k);
  }

  /** The intended placement never touches the dark module at
      (8, height - 8). */
  lemma IntendedFormatKeepsDarkModule(g: seq<seq<uint8>>, word: seq<bool>, width: int, height: int)
    requires |word| == 15 && width >= 17 && height >= 17 && IsGrid(g, width, height)
    ensures ApplyWrites(g, IntendedFormatWrites(word, width, height, 30))[height - 8][8] == g[height - 8][8]
  {
    var ws := IntendedFormatWrites(word, width, height, 30);
    IntendedFormatWritesAt(word, width, height, 30);
    forall k | 0 <= k < 30
      ensures !(ws[k].x == 8 && ws[k].y == height - 8)
    {
    }
    ApplyWritesCell(g, ws, 8, height - 8);
  }
}
