/** `ZXFormatInformation`: the format-information word (ISO/IEC
    18004:2006 section 6.9 and Annex C) and its error-tolerant decoding:
    the error-correction level and data mask are read from the nearest
    word of the table. */
module FormatInformations {
  import opened Errors
  import opened Bits
  import opened ErrorCorrectionLevels

  /** `FormatInfoMaskQR`: the mask applied to the format word. */
  const FormatInfoMaskQR := 0x5412

  /** `FormatInfoDecodeTolerance`. */
  const FormatInfoDecodeTolerance := 3

  /** Swift's `Int.max`, the starting best weight of the decoders. */
  const IntMax := 0x7FFF_FFFF_FFFF_FFFF

  datatype FormatInformation = FormatInformation(errorCorrectionLevel: ErrorCorrectionLevel, dataMask: int)

  /** A decode-table row: a code word and the value it stands for. */
  datatype Entry = Entry(lookupId: int, value: int)

  /** `FormatInfoDecodeTable`: the masked format words and their 5-bit
      contents (Table C.1). */
  const FormatInfoDecodeTable: seq<Entry> := [
    Entry(0x5412, 0x00),
    Entry(0x5125, 0x01),
    Entry(0x5E7C, 0x02),
    Entry(0x5B4B, 0x03),
    Entry(0x45F9, 0x04),
    Entry(0x40CE, 0x05),
    Entry(0x4F97, 0x06),
    Entry(0x4AA0, 0x07),
    Entry(0x77C4, 0x08),
    Entry(0x72F3, 0x09),
    Entry(0x7DAA, 0x0A),
    Entry(0x789D, 0x0B),
    Entry(0x662F, 0x0C),
    Entry(0x6318, 0x0D),
    Entry(0x6C41, 0x0E),
    Entry(0x6976, 0x0F),
    Entry(0x1689, 0x10),
    Entry(0x13BE, 0x11),
    Entry(0x1CE7, 0x12),
    Entry(0x19D0, 0x13),
    Entry(0x0762, 0x14),
    Entry(0x0255, 0x15),
    Entry(0x0D0C, 0x16),
    Entry(0x083B, 0x17),
    Entry(0x355F, 0x18),
    Entry(0x3068, 0x19),
    Entry(0x3F31, 0x1A),
    Entry(0x3A06, 0x1B),
    Entry(0x24B4, 0x1C),
    Entry(0x2183, 0x1D),
    Entry(0x2EDA, 0x1E),
    Entry(0x2BED, 0x1F)
  ]

  /** The row of each table word, read off the table. */
  function TableRow(lookupId: int): int
  {
    match lookupId
    case 0x5412 => 0
    case 0x5125 => 1
    case 0x5E7C => 2
    case 0x5B4B => 3
    case 0x45F9 => 4
    case 0x40CE => 5
    case 0x4F97 => 6
    case 0x4AA0 => 7
    case 0x77C4 => 8
    case 0x72F3 => 9
    case 0x7DAA => 10
    case 0x789D => 11
    case 0x662F => 12
    case 0x6318 => 13
    case 0x6C41 => 14
    case 0x6976 => 15
    case 0x1689 => 16
    case 0x13BE => 17
    case 0x1CE7 => 18
    case 0x19D0 => 19
    case 0x0762 => 20
    case 0x0255 => 21
    case 0x0D0C => 22
    case 0x083B => 23
    case 0x355F => 24
    case 0x3068 => 25
    case 0x3F31 => 26
    case 0x3A06 => 27
    case 0x24B4 => 28
    case 0x2183 => 29
    case 0x2EDA => 30
    case 0x2BED => 31
    case _ => -1
  }

  /** Row i holds the 5-bit value i, and the code words are pairwise
      distinct. */
  lemma TableShape()
    ensures |FormatInfoDecodeTable| == 32
    ensures forall i :: 0 <= i < 32 ==> FormatInfoDecodeTable[i].value == i
    ensures forall i :: 0 <= i < 32 ==> TableRow(FormatInfoDecodeTable[i].lookupId) == i
    ensures forall i, j :: 0 <= i < j < 32 ==> FormatInfoDecodeTable[i].lookupId != FormatInfoDecodeTable[j].lookupId
  {
    forall i | 0 <= i < 32
      ensures FormatInfoDecodeTable[i].value == i && TableRow(FormatInfoDecodeTable[i].lookupId) == i
    {
    }
  }

  // ---------------------------------------------------------------------
  // Reading the 5-bit value

  /** `init?(formatInfo:)`: bits 4..3 through `ZXErrorCorrectionLevel.lookup`
      and bits 2..0 as the data mask (Swift's `>>` and `&` on `Int` are the
      floor division and the Euclidean remainder used here). The lookup sees
      a value in 0..3, so the `IllegalArgument` throw is never reached. */
  function ParseFormat(formatInfo: int): (r: FormatInformation)
    ensures ErrorCorrectionLevels.Bits(r.errorCorrectionLevel) == (formatInfo / 8) % 4
    ensures r.dataMask == formatInfo % 8 && 0 <= r.dataMask < 8
  {
    var level := Lookup((formatInfo / 8) % 4);
    FormatInformation(level.value, formatInfo % 8)
  }

  /** The value the encoder writes, `(bits << 3) | maskPattern`, parses back
      to the same level and mask. */
  lemma ParseFormatInverse(level: ErrorCorrectionLevel, mask: int)
    requires 0 <= mask < 8
    ensures ParseFormat(ErrorCorrectionLevels.Bits(level) * 8 + mask) == FormatInformation(level, mask)
  {
    var x := ErrorCorrectionLevels.Bits(level) * 8 + mask;
    assert x / 8 == ErrorCorrectionLevels.Bits(level) && x % 8 == mask;
    LookupBits(level);
  }

  /** `differentBitCount`: the Hamming distance `(a ^ b).nonzeroBitCount`;
      since `nonzeroBitCount` counts only while the value is positive, two
      inputs of opposite sign are at distance 0. */
  function DifferentBitCount(a: int, b: int): (r: nat)
    ensures r <= BitLength(Xor(a, b))
    ensures a == b ==> r == 0
  {
    PopCountAtMost(Xor(a, b));
    XorSelf(a);
    PopCount(Xor(a, b))
  }

  /** The distance is symmetric, and between non-negative values it is 0
      exactly when they are equal. */
  lemma DifferentBitCountMetric(a: int, b: int)
    ensures DifferentBitCount(a, b) == DifferentBitCount(b, a)
    ensures a >= 0 && b >= 0 ==> (DifferentBitCount(a, b) == 0 <==> a == b)
  {
    XorComm(a, b);
    if a >= 0 && b >= 0 && DifferentBitCount(a, b) == 0 {
      PopCountAtMost(Xor(a, b));
      XorCancel(a, b);
      assert Xor(a, b) == 0;
      XorComm(0, b);
      XorZero(b);
    }
  }

  /** Between non-negative values the distance obeys the triangle
      inequality. */
  lemma DifferentBitCountTriangle(a: int, b: int, c: int)
    requires a >= 0 && b >= 0 && c >= 0
    ensures DifferentBitCount(a, c) <= DifferentBitCount(a, b) + DifferentBitCount(b, c)
  {
    PopCountXorTriangle(a, b, c);
  }

  /** Swift's `Int`: a 64-bit signed value. */
  predicate IsInt64(v: int)
  {
    -0x8000_0000_0000_0000 <= v <= IntMax
  }

  lemma Pow2Of63()
    ensures Pow2(63) == 0x8000_0000_0000_0000
  {
    assert Pow2(16) == 0x1_0000;
    Pow2Add(16, 16);
    Pow2Add(32, 16);
    Pow2Add(48, 15);
    assert Pow2(15) == 0x8000;
  }

  /** Between two `Int`s the distance is at most 63, far below `Int.max`. */
  lemma DifferentBitCountInt64(a: int, b: int)
    requires IsInt64(a) && IsInt64(b)
    ensures DifferentBitCount(a, b) <= 63
  {
    var u := if a < 0 then -1 - a else a;
    var v := if b < 0 then -1 - b else b;
    Pow2Of63();
    NatXorBound(u, v, 63);
    var x := Xor(a, b);
    if x > 0 {
      assert x == NatXor(u, v);
      BitLengthFits(x, 63);
    }
    PopCountAtMost(x);
  }

  // ---------------------------------------------------------------------
  // The nearest-entry search, as specification functions

  /** `bestMatch`: the lowest weight seen so far and its entry. */
  datatype BestMatch = BestMatch(weight: int, entry: Entry)

  /** An exact match of either input. */
  predicate Exact(e: Entry, infoA: int, infoB: int)
  {
    e.lookupId == infoA || e.lookupId == infoB
  }

  /** The index of the first exact match, or -1. */
  function FirstExact(table: seq<Entry>, infoA: int, infoB: int): (r: int)
    ensures -1 <= r < |table|
    ensures r == -1 <==> forall j :: 0 <= j < |table| ==> !Exact(table[j], infoA, infoB)
    ensures r >= 0 ==> Exact(table[r], infoA, infoB) && forall j :: 0 <= j < r ==> !Exact(table[j], infoA, infoB)
  {
    if table == [] then -1
    else if Exact(table[0], infoA, infoB) then 0
    else
      var i := FirstExact(table[1..], infoA, infoB);
      assert forall j :: 1 <= j < |table| ==> table[j] == table[1..][j - 1];
      if i == -1 then -1 else i + 1
  }

  /** The strict-`<` update of `bestMatch` with one candidate weight. */
  function Consider(best: BestMatch, weight: int, e: Entry): BestMatch
  {
    if weight < best.weight then BestMatch(weight, e) else best
  }

  /** One table entry: first the distance to `infoA`, then, when the two
      inputs differ, the distance to `infoB`. */
  function Step(best: BestMatch, e: Entry, infoA: int, infoB: int): BestMatch
  {
    var afterA := Consider(best, DifferentBitCount(infoA, e.lookupId), e);
    if infoA != infoB then Consider(afterA, DifferentBitCount(infoB, e.lookupId), e) else afterA
  }

  /** `bestMatch` after the first n entries, from `(Int.max, (0, 0))`. */
  function BestUpTo(table: seq<Entry>, infoA: int, infoB: int, n: nat): BestMatch
    requires n <= |table|
  {
    if n == 0 then BestMatch(IntMax, Entry(0, 0))
    else Step(BestUpTo(table, infoA, infoB, n - 1), table[n - 1], infoA, infoB)
  }

  /** The entry chosen by the search: the first exact match, otherwise the
      best corrupted match when its weight is within the tolerance. */
  function DecodeEntry(table: seq<Entry>, infoA: int, infoB: int, tolerance: int): Option<Entry>
  {
    var i := FirstExact(table, infoA, infoB);
    if i >= 0 then Some(table[i])
    else
      var best := BestUpTo(table, infoA, infoB, |table|);
      if best.weight <= tolerance then Some(best.entry) else None
  }

  // ---------------------------------------------------------------------
  // An independent description of the best match

  /** The distance of an entry to the inputs: the smaller of the two
      distances, or the one distance when both inputs are equal. */
  function EntryWeight(e: Entry, infoA: int, infoB: int): (r: int)
    ensures r <= DifferentBitCount(infoA, e.lookupId)
    ensures r <= DifferentBitCount(infoB, e.lookupId)
    ensures r == DifferentBitCount(infoA, e.lookupId) || r == DifferentBitCount(infoB, e.lookupId)
  {
    var wa := DifferentBitCount(infoA, e.lookupId);
    var wb := DifferentBitCount(infoB, e.lookupId);
    if infoA != infoB && wb < wa then wb else wa
  }

  /** The first of the first n entries with the least weight. */
  function FirstMinimum(table: seq<Entry>, infoA: int, infoB: int, n: nat): (k: nat)
    requires 0 < n <= |table|
    ensures k < n
    ensures forall j :: 0 <= j < n ==> EntryWeight(table[k], infoA, infoB) <= EntryWeight(table[j], infoA, infoB)
    ensures forall j :: 0 <= j < k ==> EntryWeight(table[k], infoA, infoB) < EntryWeight(table[j], infoA, infoB)
  {
    if n == 1 then 0
    else
      var k := FirstMinimum(table, infoA, infoB, n - 1);
      if EntryWeight(table[n - 1], infoA, infoB) < EntryWeight(table[k], infoA, infoB) then n - 1 else k
  }

  /** When every weight is below `Int.max`, the search ends on the first
      entry of least weight, with that weight. */
  lemma {:induction false} BestIsFirstMinimum(table: seq<Entry>, infoA: int, infoB: int, n: nat)
    requires 0 < n <= |table|
    requires forall j :: 0 <= j < n ==> EntryWeight(table[j], infoA, infoB) < IntMax
    ensures var k := FirstMinimum(table, infoA, infoB, n);
      BestUpTo(table, infoA, infoB, n) == BestMatch(EntryWeight(table[k], infoA, infoB), table[k])
  {
    if n > 1 {
      BestIsFirstMinimum(table, infoA, infoB, n - 1);
    }
  }

  /** Inputs and codes that are Swift `Int`s keep every weight below
      `Int.max`. */
  lemma WeightsBelowIntMax(table: seq<Entry>, infoA: int, infoB: int)
    requires IsInt64(infoA) && IsInt64(infoB)
    requires forall j :: 0 <= j < |table| ==> IsInt64(table[j].lookupId)
    ensures forall j :: 0 <= j < |table| ==> EntryWeight(table[j], infoA, infoB) < IntMax
  {
    forall j | 0 <= j < |table|
      ensures EntryWeight(table[j], infoA, infoB) < IntMax
    {
      DifferentBitCountInt64(infoA, table[j].lookupId);
    }
  }

  /** Without an exact match, the search accepts exactly when the least
      weight is within the tolerance, and then yields the first entry of
      least weight. */
  lemma NearestEntry(table: seq<Entry>, infoA: int, infoB: int, tolerance: int)
    requires IsInt64(infoA) && IsInt64(infoB)
    requires forall j :: 0 <= j < |table| ==> IsInt64(table[j].lookupId)
    requires 0 <= tolerance < IntMax
    requires FirstExact(table, infoA, infoB) == -1
    ensures table == [] ==> DecodeEntry(table, infoA, infoB, tolerance) == None
    ensures table != [] ==>
      var k := FirstMinimum(table, infoA, infoB, |table|);
      DecodeEntry(table, infoA, infoB, tolerance) ==
        if EntryWeight(table[k], infoA, infoB) <= tolerance then Some(table[k]) else None
  {
    if table != [] {
      WeightsBelowIntMax(table, infoA, infoB);
      BestIsFirstMinimum(table, infoA, infoB, |table|);
    }
  }

  /** The best match is `(Int.max, (0, 0))` or one of the entries seen. */
  lemma {:induction false} BestInTable(table: seq<Entry>, infoA: int, infoB: int, n: nat)
    requires n <= |table|
    ensures BestUpTo(table, infoA, infoB, n).weight <= IntMax
    ensures BestUpTo(table, infoA, infoB, n).weight < IntMax ==> BestUpTo(table, infoA, infoB, n).entry in table[..n]
  {
    if n > 0 {
      BestInTable(table, infoA, infoB, n - 1);
      assert table[..n] == table[..n - 1] + [table[n - 1]];
    }
  }

  /** With a tolerance below `Int.max`, a decoded entry is a table row. */
  lemma DecodeEntryInTable(table: seq<Entry>, infoA: int, infoB: int, tolerance: int)
    requires tolerance < IntMax
    ensures DecodeEntry(table, infoA, infoB, tolerance).Some? ==> DecodeEntry(table, infoA, infoB, tolerance).value in table
  {
    if FirstExact(table, infoA, infoB) == -1 {
      BestInTable(table, infoA, infoB, |table|);
      assert table[..|table|] == table;
    }
  }

  // ---------------------------------------------------------------------
  // The search loop

  /** The loop of `decode(formatInfoA:formatInfoB:applyMask:)` over a table:
      stop at the first exact match, otherwise track the best corrupted
      match and accept it within the tolerance. */
  method DecodeTable(table: seq<Entry>, infoA: int, infoB: int, tolerance: int) returns (result: Option<Entry>)
    ensures result == DecodeEntry(table, infoA, infoB, tolerance)
  {
    result := None;
    var bestMatch := BestMatch(IntMax, Entry(0, 0));
    var i := 0;
    while i < |table|
      invariant 0 <= i <= |table|
      invariant result.None? && bestMatch == BestUpTo(table, infoA, infoB, i)
      invariant forall j :: 0 <= j < i ==> !Exact(table[j], infoA, infoB)
    {
      var entry := table[i];
      if entry.lookupId == infoA || entry.lookupId == infoB {
        result := Some(entry);
        FirstExactAt(table, infoA, infoB, i);
        break;
      }
      var weight := DifferentBitCount(infoA, entry.lookupId);
      if weight < bestMatch.weight {
        bestMatch := BestMatch(weight, entry);
      }
      if infoA != infoB {
        weight := DifferentBitCount(infoB, entry.lookupId);
        if weight < bestMatch.weight {
          bestMatch := BestMatch(weight, entry);
        }
      }
      i := i + 1;
    }
    if result.None? && bestMatch.weight <= tolerance {
      result := Some(bestMatch.entry);
    }
  }

  /** An exact match after none is the first one. */
  lemma FirstExactAt(table: seq<Entry>, infoA: int, infoB: int, i: int)
    requires 0 <= i < |table| && Exact(table[i], infoA, infoB)
    requires forall j :: 0 <= j < i ==> !Exact(table[j], infoA, infoB)
    ensures FirstExact(table, infoA, infoB) == i
  {
    var r := FirstExact(table, infoA, infoB);
    assert r != -1;
    assert !(r < i) && !(i < r);
  }

  // ---------------------------------------------------------------------
  // Format information

  /** The result of `decode(formatInfoA:formatInfoB:applyMask:)`. */
  function DecodeFormatResult(formatInfoA: int, formatInfoB: int, applyMask: bool): Option<FormatInformation>
  {
    var infoA := if applyMask then Xor(formatInfoA, FormatInfoMaskQR) else formatInfoA;
    var infoB := if applyMask then Xor(formatInfoB, FormatInfoMaskQR) else formatInfoB;
    match DecodeEntry(FormatInfoDecodeTable, infoA, infoB, FormatInfoDecodeTolerance)
    case None => None
    case Some(e) => Some(ParseFormat(e.value))
  }

  /** `decode(formatInfoA:formatInfoB:applyMask:)`. */
  method DecodeFormat(formatInfoA: int, formatInfoB: int, applyMask: bool) returns (r: Option<FormatInformation>)
    ensures r == DecodeFormatResult(formatInfoA, formatInfoB, applyMask)
  {
    var infoA := if applyMask then Xor(formatInfoA, FormatInfoMaskQR) else formatInfoA;
    var infoB := if applyMask then Xor(formatInfoB, FormatInfoMaskQR) else formatInfoB;
    var entry := DecodeTable(FormatInfoDecodeTable, infoA, infoB, FormatInfoDecodeTolerance);
    match entry
    case None =>
      r := None;
    case Some(e) =>
      r := Some(ParseFormat(e.value));
  }

  /** `init?(formatInfoA:formatInfoB:)`: the inputs as they are first, then
      with the mask removed. */
  method FromFormatInfo(formatInfoA: int, formatInfoB: int) returns (r: Option<FormatInformation>)
    ensures r == (if DecodeFormatResult(formatInfoA, formatInfoB, false).Some?
                  then DecodeFormatResult(formatInfoA, formatInfoB, false)
                  else DecodeFormatResult(formatInfoA, formatInfoB, true))
  {
    r := DecodeFormat(formatInfoA, formatInfoB, false);
    if r.None? {
      r := DecodeFormat(formatInfoA, formatInfoB, true);
    }
  }

  /** A table word read back without corruption decodes to the level and
      mask it encodes, whether it is read as it is or, with the mask
      applied a second time, as `decode(..., applyMask: true)` sees it. */
  lemma DecodeFormatExact(level: ErrorCorrectionLevel, mask: int)
    requires 0 <= mask < 8
    ensures var word := FormatInfoDecodeTable[ErrorCorrectionLevels.Bits(level) * 8 + mask].lookupId;
      DecodeFormatResult(word, word, false) == Some(FormatInformation(level, mask)) &&
      DecodeFormatResult(Xor(word, FormatInfoMaskQR), Xor(word, FormatInfoMaskQR), true) == Some(FormatInformation(level, mask))
  {
    TableShape();
    var i := ErrorCorrectionLevels.Bits(level) * 8 + mask;
    var word := FormatInfoDecodeTable[i].lookupId;
    FirstExactAt(FormatInfoDecodeTable, word, word, i);
    ParseFormatInverse(level, mask);
    XorCancel(word, FormatInfoMaskQR);
  }
}
