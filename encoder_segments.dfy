/** ZXEncoder.swift, first half: choosing the mode, the header and
    character-count segments, the data payloads of each mode, and the
    terminator and pad codewords that fill a version's data capacity
    (ISO/IEC 18004:2006 sections 6.4.1 to 6.4.10). Bit arrays are
    `seq<bool>`, most significant bit first; text is its sequence of
    Unicode scalars. */
module EncoderSegments {
  import opened Errors
  import opened Bits
  import opened BitArray
  import opened Modes
  import opened CharacterSetEci
  import opened ErrorCorrectionLevels
  import opened QRVersions

  /** `DefaultMode`. */
  const DefaultMode: Mode := Byte

  /** `SupportedModes`, in the order `selectEncodingMode` tries them. */
  const SupportedModes: seq<Mode> := [Kanji, Numeric, Alphanumeric, Byte]

  /** `PadCodewords`. */
  const PadCodewords: seq<int> := [0xEC, 0x11]

  /** The pad codeword at byte index `idx`, `PadCodewords[idx & 0x1]`:
      0xEC at even indices, 0x11 at odd ones. */
  function PadCodeword(idx: nat): (r: int)
    ensures r == if idx % 2 == 0 then 0xEC else 0x11
  {
    AndOne(idx);
    PadCodewords[And(idx, 1)]
  }

  // ---------------------------------------------------------------------
  // Mode selection

  /** The closure passed to `first(where:)`: Kanji is only tried when the
      requested encoding is Shift-JIS. Whether the text converts to
      Shift-JIS is a Foundation call, given as `shiftJisConvertible`. */
  predicate Candidate(mode: Mode, text: string, isShiftJis: bool, shiftJisConvertible: bool)
  {
    if mode == Kanji then isShiftJis && SupportsContent(Kanji, text, shiftJisConvertible)
    else SupportsContent(mode, text, shiftJisConvertible)
  }

  /** `first(where:)` over a list of modes. */
  function FirstCandidate(modes: seq<Mode>, text: string, isShiftJis: bool, shiftJisConvertible: bool): (r: Option<Mode>)
    ensures r.Some? ==> r.value in modes && Candidate(r.value, text, isShiftJis, shiftJisConvertible)
    ensures r.None? <==> forall i :: 0 <= i < |modes| ==> !Candidate(modes[i], text, isShiftJis, shiftJisConvertible)
  {
    if modes == [] then None
    else if Candidate(modes[0], text, isShiftJis, shiftJisConvertible) then Some(modes[0])
    else FirstCandidate(modes[1..], text, isShiftJis, shiftJisConvertible)
  }

  /** `selectEncodingMode(content:encoding:)`. */
  function SelectEncodingMode(text: string, isShiftJis: bool, shiftJisConvertible: bool): Mode
  {
    match FirstCandidate(SupportedModes, text, isShiftJis, shiftJisConvertible)
    case Some(mode) => mode
    case None => DefaultMode
  }

  /** The chosen mode is the first of Kanji (Shift-JIS only), Numeric and
      Alphanumeric that supports the text, and Byte otherwise; whatever it
      is, it supports the text. */
  lemma SelectedMode(text: string, isShiftJis: bool, shiftJisConvertible: bool)
    ensures var m := SelectEncodingMode(text, isShiftJis, shiftJisConvertible);
      (m == Kanji <==> isShiftJis && shiftJisConvertible) &&
      (m == Numeric <==> !(isShiftJis && shiftJisConvertible) && AllDigits(text)) &&
      (m == Alphanumeric <==> !(isShiftJis && shiftJisConvertible) && !AllDigits(text) && AllAlphanumeric(text)) &&
      (m == Byte <==> !(isShiftJis && shiftJisConvertible) && !AllAlphanumeric(text)) &&
      SupportsContent(m, text, shiftJisConvertible)
  {
    NumericIsAlphanumeric(text, shiftJisConvertible);
    var modes := SupportedModes;
    assert modes[1..] == [Numeric, Alphanumeric, Byte];
    assert modes[1..][1..] == [Alphanumeric, Byte];
    assert modes[1..][1..][1..] == [Byte];
    var first := FirstCandidate(modes, text, isShiftJis, shiftJisConvertible);
    if isShiftJis && shiftJisConvertible {
      assert first == Some(Kanji);
    } else {
      assert first == FirstCandidate(modes[1..], text, isShiftJis, shiftJisConvertible);
      if !AllDigits(text) {
        assert first == FirstCandidate(modes[1..][1..], text, isShiftJis, shiftJisConvertible);
        if !AllAlphanumeric(text) {
          assert first == FirstCandidate(modes[1..][1..][1..], text, isShiftJis, shiftJisConvertible);
        }
      }
    }
  }

  // ---------------------------------------------------------------------
  // Header and character count

  /** `createHeaderSegment(mode:eciCharacterSet:)`: the ECI indicator and
      the 8-bit ECI value, for Byte mode with a character set other than
      ISO-8859-1, then the four mode bits. */
  function CreateHeaderSegment(mode: Mode, eci: Option<CharacterSetECI>): (r: seq<bool>)
    ensures |r| == if mode == Byte && eci.Some? && eci.value != DefaultCharacterSet then 16 else 4
    ensures ValueMsb(r[|r| - 4..]) == Modes.Bits(mode)
    ensures |r| == 16 ==>
      ValueMsb(r[..4]) == Modes.Bits(ECI) && ValueMsb(r[4..12]) == Value(eci.value).value
  {
    FourBits(Modes.Bits(mode));
    var modeBits := MakeBitArray(Modes.Bits(mode), 4);
    if mode == Byte && eci.Some? && eci.value != DefaultCharacterSet then
      LookupValue(eci.value);
      EightBits(Value(eci.value).value);
      FourBits(Modes.Bits(ECI));
      var indicator := MakeBitArray(Modes.Bits(ECI), 4);
      var valueBits := match Value(eci.value)
        case Some(eciValue) => MakeBitArray(eciValue, 8)
        case None => [];
      var r := indicator + valueBits + modeBits;
      assert r[..4] == indicator && r[4..12] == valueBits && r[12..] == modeBits;
      r
    else
      modeBits
  }

  /** A byte comes back from its eight bits. */
  lemma EightBits(v: int)
    requires 0 <= v < 256
    ensures ValueMsb(MakeBitArray(v, 8)) == v
  {
    assert Pow2(8) == 256 by {
      assert Pow2(4) == 16;
    }
    MakeBitArrayValue(v, 8);
  }

  /** A mode or ECI indicator comes back from its four bits. */
  lemma FourBits(v: int)
    requires 0 <= v < 16
    ensures ValueMsb(MakeBitArray(v, 4)) == v
  {
    assert Pow2(4) == 16;
    MakeBitArrayValue(v, 4);
  }

  /** `createCharacterCountSegment(...)`. The count comes from
      `calculateCharacterCount`, which is not part of this model; it is
      the parameter `contentLength`, an error when that call throws. */
  function CreateCharacterCountSegment(mode: Mode, versionNumber: int, contentLength: Result<int>): (r: Result<seq<bool>>)
    ensures contentLength.Err? ==> r == Err(contentLength.error)
    ensures contentLength.Ok? ==>
      (r.Err? <==> BitLength(contentLength.value) > CharacterCountBits(mode, versionNumber))
    ensures contentLength.Ok? && r.Err? ==> r.error == InvalidFormat
    ensures r.Ok? ==> |r.value| == CharacterCountBits(mode, versionNumber)
    ensures r.Ok? && contentLength.value >= 0 ==> ValueMsb(r.value) == contentLength.value
  {
    match contentLength
    case Err(e) => Err(e)
    case Ok(count) =>
      var maxBitsCount := CharacterCountBits(mode, versionNumber);
      if BitLength(count) > maxBitsCount then Err(InvalidFormat)
      else
        CountFits(count, maxBitsCount);
        Ok(MakeBitArray(count, maxBitsCount))
  }

  /** A count no wider than the field comes back whole from it. */
  lemma CountFits(count: int, width: int)
    requires 0 <= width && BitLength(count) <= width
    ensures count >= 0 ==> ValueMsb(MakeBitArray(count, width)) == count
  {
    if count >= 0 {
      BitLengthFits(count, width);
      MakeBitArrayValue(count, width);
    }
  }

  // ---------------------------------------------------------------------
  // Numeric payload

  /** The scalar value of a digit minus that of '0', as the encoder
      subtracts it. */
  function DigitValue(c: char): int
  {
    c as int - '0' as int
  }

  /** The length of the numeric payload of n digits. */
  function NumericLength(n: nat): nat
  {
    if n == 0 then 0 else if 2 < n then 10 + NumericLength(n - 3) else if n == 2 then 7 else 4
  }

  /** Ten bits per group of three digits, and 4 or 7 for a final group of
      one or two. */
  lemma {:induction false} NumericLengthClosedForm(n: nat)
    ensures NumericLength(n) == 10 * (n / 3) + (if n % 3 == 0 then 0 else if n % 3 == 1 then 4 else 7)
  {
    if 2 < n {
      NumericLengthClosedForm(n - 3);
      DivModUnique(n, 3, (n - 3) / 3 + 1, (n - 3) % 3);
    }
  }


  /** The bits `createNumericPayload` appends, from the front of the text:
      three scalars in 10 bits, a final two in 7, a final one in 4. The
      subtraction of '0' is on `UInt32` and traps below '0'. */
  function NumericBits(text: string): (r: seq<bool>)
    requires forall i :: 0 <= i < |text| ==> '0' <= text[i]
    ensures |r| == NumericLength(|text|)
    decreases |text|
  {
    if |text| == 0 then []
    else if 2 < |text| then
      MakeBitArray(DigitValue(text[0]) * 100 + DigitValue(text[1]) * 10 + DigitValue(text[2]), 10) +
      NumericBits(text[3..])
    else if 1 < |text| then MakeBitArray(DigitValue(text[0]) * 10 + DigitValue(text[1]), 7)
    else MakeBitArray(DigitValue(text[0]), 4)
  }

  /** `createNumericPayload(content:)`. */
  method CreateNumericPayload(text: string) returns (bits: seq<bool>)
    requires forall i :: 0 <= i < |text| ==> '0' <= text[i]
    ensures bits == NumericBits(text)
  {
    bits := [];
    var len := |text|;
    var charIdx := 0;
    while charIdx < len
      invariant 0 <= charIdx <= len
      invariant bits + NumericBits(text[charIdx..]) == NumericBits(text)
    {
      var encodeValue: int;
      var encodeBitWidth: int;
      NumericBitsAt(text, charIdx);
      if charIdx + 2 < len {
        encodeBitWidth := 10;
        encodeValue := DigitValue(text[charIdx]) * 100 + DigitValue(text[charIdx + 1]) * 10 + DigitValue(text[charIdx + 2]);
        PayloadStep(NumericBits(text), bits, NumericBits(text[charIdx..]),
          MakeBitArray(encodeValue, encodeBitWidth), NumericBits(text[charIdx + 3..]));
        charIdx := charIdx + 3;
      } else if charIdx + 1 < len {
        encodeBitWidth := 7;
        encodeValue := DigitValue(text[charIdx]) * 10 + DigitValue(text[charIdx + 1]);
        PayloadStep(NumericBits(text), bits, NumericBits(text[charIdx..]),
          MakeBitArray(encodeValue, encodeBitWidth), NumericBits(text[charIdx + 2..]));
        charIdx := charIdx + 2;
      } else {
        encodeBitWidth := 4;
        encodeValue := DigitValue(text[charIdx]);
        PayloadStep(NumericBits(text), bits, NumericBits(text[charIdx..]),
          MakeBitArray(encodeValue, encodeBitWidth), NumericBits(text[charIdx + 1..]));
        charIdx := charIdx + 1;
      }
      bits := bits + MakeBitArray(encodeValue, encodeBitWidth);
    }
    assert text[len..] == [];
  }

  /** Moving the next group from the rest of the payload onto the bits
      already appended keeps the whole payload. */
  lemma PayloadStep(whole: seq<bool>, bits: seq<bool>, rest: seq<bool>, group: seq<bool>, more: seq<bool>)
    requires bits + rest == whole && rest == group + more
    ensures (bits + group) + more == whole
  {
    AppendAssoc(bits, group, more);
  }

  /** The payload of the text from position i on: its first group,
      then the payload of what follows the group. */
  lemma NumericBitsAt(text: string, i: nat)
    requires i < |text| && forall k :: 0 <= k < |text| ==> '0' <= text[k]
    ensures i + 2 < |text| ==>
      NumericBits(text[i..]) ==
        MakeBitArray(DigitValue(text[i]) * 100 + DigitValue(text[i + 1]) * 10 + DigitValue(text[i + 2]), 10) +
        NumericBits(text[i + 3..])
    ensures i + 2 == |text| ==>
      NumericBits(text[i..]) == MakeBitArray(DigitValue(text[i]) * 10 + DigitValue(text[i + 1]), 7) + NumericBits(text[i + 2..])
    ensures i + 1 == |text| ==>
      NumericBits(text[i..]) == MakeBitArray(DigitValue(text[i]), 4) + NumericBits(text[i + 1..])
  {
    var rest := text[i..];
    if i + 2 < |text| {
      assert rest[0] == text[i] && rest[1] == text[i + 1] && rest[2] == text[i + 2];
      assert rest[3..] == text[i + 3..];
    } else if i + 2 == |text| {
      assert rest[0] == text[i] && rest[1] == text[i + 1];
      assert text[i + 2..] == [];
    } else {
      assert text[i + 1..] == [];
    }
  }

  /** The digit character of a value 0 to 9. */
  function DigitChar(d: int): char
    requires 0 <= d < 10
  {
    ('0' as int + d) as char
  }

  /** Reads a numeric payload of n digits back. */
  function DecodeNumeric(bits: seq<bool>, n: nat): (r: string)
    requires |bits| == NumericLength(n)
    ensures |r| == n
  {
    if n == 0 then []
    else if 2 < n then DecimalDigits(ValueMsb(bits[..10]), 3) + DecodeNumeric(bits[10..], n - 3)
    else DecimalDigits(ValueMsb(bits), n)
  }

  /** The last `count` decimal digits of a value, most significant first. */
  function DecimalDigits(value: nat, count: nat): (r: string)
    ensures |r| == count
  {
    if count == 0 then [] else DecimalDigits(value / 10, count - 1) + [DigitChar(value % 10)]
  }


  /** Round trip: the digits of an all-digit text come back from its
      numeric payload. */
  lemma {:induction false} NumericRoundTrip(text: string)
    requires forall i :: 0 <= i < |text| ==> '0' <= text[i] <= '9'
    ensures DecodeNumeric(NumericBits(text), |text|) == text
    decreases |text|
  {
    if 2 < |text| {
      NumericRoundTrip(text[3..]);
      NumericGroupStep(text);
      SplitThree(text);
    } else {
      NumericShortRoundTrip(text);
    }
  }

  /** The first group of three digits decodes to those digits, followed by
      what the rest of the payload decodes to. */
  lemma NumericGroupStep(text: string)
    requires 2 < |text| && forall i :: 0 <= i < |text| ==> '0' <= text[i] <= '9'
    ensures DecodeNumeric(NumericBits(text), |text|) ==
      [text[0], text[1], text[2]] + DecodeNumeric(NumericBits(text[3..]), |text| - 3)
  {
    NumericBitsFront(text);
    DecimalGroup(text[0], text[1], text[2]);
  }

  /** The payload of more than two digits starts with the ten bits of the
      first three as a decimal number, followed by the payload of the
      rest. */
  lemma NumericBitsFront(text: string)
    requires 2 < |text| && forall i :: 0 <= i < |text| ==> '0' <= text[i]
    ensures var bits := NumericBits(text);
      var v := DigitValue(text[0]) * 100 + DigitValue(text[1]) * 10 + DigitValue(text[2]);
      (v < 1024 ==> ValueMsb(bits[..10]) == v) && bits[10..] == NumericBits(text[3..])
  {
    var v := DigitValue(text[0]) * 100 + DigitValue(text[1]) * 10 + DigitValue(text[2]);
    var head, tail := MakeBitArray(v, 10), NumericBits(text[3..]);
    NumericBitsUnfold(text);
    ConcatParts(head, tail);
    if v < 1024 {
      TenBitsValue(v);
      FrontValue(NumericBits(text), head, tail, v);
    }
  }

  /** The value of the leading field of a concatenation is that of the
      field. */
  lemma FrontValue(bits: seq<bool>, head: seq<bool>, tail: seq<bool>, v: int)
    requires bits == head + tail && ValueMsb(head) == v
    ensures ValueMsb(bits[..|head|]) == v
  {
    ConcatParts(head, tail);
  }

  /** One step of the payload: a leading group of three digits. */
  lemma NumericBitsUnfold(text: string)
    requires 2 < |text| && forall i :: 0 <= i < |text| ==> '0' <= text[i]
    ensures NumericBits(text) ==
      MakeBitArray(DigitValue(text[0]) * 100 + DigitValue(text[1]) * 10 + DigitValue(text[2]), 10) +
      NumericBits(text[3..])
  {
  }

  /** A value below 1024 reads back from its ten bits. */
  lemma TenBitsValue(v: int)
    requires 0 <= v < 1024
    ensures ValueMsb(MakeBitArray(v, 10)) == v
  {
    assert Pow2(10) == 1024;
    MakeBitArrayValue(v, 10);
  }

  /** A final group of fewer than three digits decodes. */
  lemma NumericShortRoundTrip(text: string)
    requires |text| <= 2 && forall i :: 0 <= i < |text| ==> '0' <= text[i] <= '9'
    ensures DecodeNumeric(NumericBits(text), |text|) == text
  {
    if |text| == 2 {
      assert text == [text[0], text[1]];
      NumericPairRoundTrip(text[0], text[1]);
    } else if |text| == 1 {
      assert text == [text[0]];
      NumericSingleRoundTrip(text[0]);
    }
  }

  /** A final pair of digits: seven bits, read back. */
  lemma NumericPairRoundTrip(c1: char, c2: char)
    requires '0' <= c1 <= '9' && '0' <= c2 <= '9'
    ensures DecodeNumeric(NumericBits([c1, c2]), 2) == [c1, c2]
  {
    var v := DigitValue(c1) * 10 + DigitValue(c2);
    assert NumericBits([c1, c2]) == MakeBitArray(v, 7);
    assert Pow2(7) == 128 by {
      assert Pow2(4) == 16;
    }
    MakeBitArrayValue(v, 7);
    DecimalGroup(c1, c1, c2);
  }

  /** A final single digit: four bits, read back. */
  lemma NumericSingleRoundTrip(c: char)
    requires '0' <= c <= '9'
    ensures DecodeNumeric(NumericBits([c]), 1) == [c]
  {
    assert NumericBits([c]) == MakeBitArray(DigitValue(c), 4);
    assert Pow2(4) == 16;
    MakeBitArrayValue(DigitValue(c), 4);
    DecimalGroup(c, c, c);
  }




  /** Three digits read as a decimal number give back their characters. */
  lemma DecimalGroup(c1: char, c2: char, c3: char)
    requires '0' <= c1 <= '9' && '0' <= c2 <= '9' && '0' <= c3 <= '9'
    ensures DigitValue(c1) * 100 + DigitValue(c2) * 10 + DigitValue(c3) < 1000
    ensures DecimalDigits(DigitValue(c1) * 100 + DigitValue(c2) * 10 + DigitValue(c3), 3) == [c1, c2, c3]
    ensures DecimalDigits(DigitValue(c2) * 10 + DigitValue(c3), 2) == [c2, c3]
    ensures DecimalDigits(DigitValue(c3), 1) == [c3]
  {
    var a, b, c := DigitValue(c1), DigitValue(c2), DigitValue(c3);
    var v := a * 100 + b * 10 + c;
    DivModUnique(v, 10, a * 10 + b, c);
    DivModUnique(a * 10 + b, 10, a, b);
    DivModUnique(b * 10 + c, 10, b, c);
    DivModUnique(a, 10, 0, a);
    DivModUnique(b, 10, 0, b);
    DivModUnique(c, 10, 0, c);
    assert DecimalDigits(v, 1) == [c3];
    assert DecimalDigits(a * 10 + b, 1) == [c2];
    assert DecimalDigits(a, 1) == [c1];
    assert DecimalDigits(b * 10 + c, 1) == [c3];
    assert DecimalDigits(b, 1) == [c2];
  }




  // ---------------------------------------------------------------------
  // Alphanumeric payload

  /** `AlphanumericLookupTable[c]`: digits count from 0, letters from 10,
      and space, $ % * + - . / : from 36 in that order. */
  function AlphanumericCode(c: char): (r: Option<int>)
    ensures r.Some? <==> IsAlphanumeric(c)
    ensures r.Some? ==> 0 <= r.value < 45
  {
    if '0' <= c <= '9' then Some(c as int - '0' as int)
    else if 'A' <= c <= 'Z' then Some(c as int - 'A' as int + 10)
    else if c == ' ' then Some(36)
    else if c == '$' then Some(37)
    else if c == '%' then Some(38)
    else if c == '*' then Some(39)
    else if c == '+' then Some(40)
    else if c == '-' then Some(41)
    else if c == '.' then Some(42)
    else if c == '/' then Some(43)
    else if c == ':' then Some(44)
    else None
  }

  /** The character with a given alphanumeric code. */
  function AlphanumericChar(code: int): (c: char)
    requires 0 <= code < 45
    ensures IsAlphanumeric(c)
  {
    if code < 10 then ('0' as int + code) as char
    else if code < 36 then ('A' as int + code - 10) as char
    else if code == 36 then ' '
    else if code == 37 then '$'
    else if code == 38 then '%'
    else if code == 39 then '*'
    else if code == 40 then '+'
    else if code == 41 then '-'
    else if code == 42 then '.'
    else if code == 43 then '/'
    else ':'
  }

  /** The table is a bijection between the 45 characters and the codes
      0 to 44: each code comes back from its character, and each
      character from its code. */
  lemma AlphanumericTable()
    ensures forall code :: 0 <= code < 45 ==> AlphanumericCode(AlphanumericChar(code)) == Some(code)
    ensures forall c :: IsAlphanumeric(c) ==> AlphanumericChar(AlphanumericCode(c).value) == c
  {
    forall code | 0 <= code < 45
      ensures AlphanumericCode(AlphanumericChar(code)) == Some(code)
    {
      CodeOfChar(code);
    }
    forall c | IsAlphanumeric(c)
      ensures AlphanumericChar(AlphanumericCode(c).value) == c
    {
      CharOfCode(c);
    }
  }

  /** One character of the table. */
  lemma CharOfCode(c: char)
    requires IsAlphanumeric(c)
    ensures AlphanumericChar(AlphanumericCode(c).value) == c
  {
  }

  /** One code of the table. */
  lemma CodeOfChar(code: int)
    requires 0 <= code < 45
    ensures AlphanumericCode(AlphanumericChar(code)) == Some(code)
  {
  }

  /** The bits of `createAlphanumericPayload`, from the front of the text:
      two coded characters in 11 bits as 45 c1 + c2, otherwise one in 6;
      an uncoded character is an IllegalArgument error. */
  function AlphanumericBits(text: string): (r: Result<seq<bool>>)
    ensures r.Err? ==> r.error == IllegalArgument
    ensures r.Ok? ==> |r.value| == 11 * (|text| / 2) + 6 * (|text| % 2)
    decreases |text|
  {
    if |text| == 0 then Ok([])
    else if 1 < |text| && AlphanumericCode(text[0]).Some? && AlphanumericCode(text[1]).Some? then
      var value := AlphanumericCode(text[0]).value * 45 + AlphanumericCode(text[1]).value;
      Prepend(MakeBitArray(value, 11), AlphanumericBits(text[2..]))
    else if AlphanumericCode(text[0]).Some? then
      var rest := AlphanumericBits(text[1..]);
      assert 1 < |text| ==> text[1..][0] == text[1];
      Prepend(MakeBitArray(AlphanumericCode(text[0]).value, 6), rest)
    else Err(IllegalArgument)
  }

  /** The payload is an error exactly when some character is outside the
      45-character set. */
  lemma {:induction false} AlphanumericBitsRejects(text: string)
    ensures AlphanumericBits(text).Err? <==> exists i :: 0 <= i < |text| && !IsAlphanumeric(text[i])
    decreases |text|
  {
    if |text| == 0 {
    } else if 1 < |text| && AlphanumericCode(text[0]).Some? && AlphanumericCode(text[1]).Some? {
      AlphanumericBitsRejects(text[2..]);
      assert forall i :: 2 <= i < |text| ==> text[2..][i - 2] == text[i];
    } else if AlphanumericCode(text[0]).Some? {
      AlphanumericBitsRejects(text[1..]);
      assert forall i :: 1 <= i < |text| ==> text[1..][i - 1] == text[i];
    }
  }

  lemma PrependNothing(rest: Result<seq<bool>>)
    ensures Prepend([], rest) == rest
  {
    if rest.Ok? {
      assert [] + rest.value == rest.value;
    }
  }

  /** Bits already appended, in front of the outcome of the rest. */
  function Prepend(bits: seq<bool>, rest: Result<seq<bool>>): (r: Result<seq<bool>>)
    ensures r.Ok? <==> rest.Ok?
    ensures r.Ok? ==> r.value == bits + rest.value
    ensures r.Err? ==> r.error == rest.error
  {
    match rest
    case Ok(more) => Ok(bits + more)
    case Err(e) => Err(e)
  }

  /** `createAlphanumericPayload(content:)`. */
  method CreateAlphanumericPayload(text: string) returns (r: Result<seq<bool>>)
    ensures r == AlphanumericBits(text)
  {
    var bits: seq<bool> := [];
    var len := |text|;
    var charIdx := 0;
    assert text[0..] == text;
    assert Prepend(bits, AlphanumericBits(text)) == AlphanumericBits(text) by {
      if AlphanumericBits(text).Ok? {
        assert [] + AlphanumericBits(text).value == AlphanumericBits(text).value;
      }
    }
    while charIdx < len
      invariant 0 <= charIdx <= len
      invariant Prepend(bits, AlphanumericBits(text[charIdx..])) == AlphanumericBits(text)
    {
      var encodeValue: int;
      var encodeBitWidth: int;
      ghost var start := charIdx;
      AlphanumericBitsAt(text, charIdx);
      if charIdx + 1 < len && AlphanumericCode(text[charIdx]).Some? && AlphanumericCode(text[charIdx + 1]).Some? {
        encodeBitWidth := 11;
        encodeValue := AlphanumericCode(text[charIdx]).value * 45 + AlphanumericCode(text[charIdx + 1]).value;
        charIdx := charIdx + 2;
      } else if AlphanumericCode(text[charIdx]).Some? {
        encodeBitWidth := 6;
        encodeValue := AlphanumericCode(text[charIdx]).value;
        charIdx := charIdx + 1;
      } else {
        return Err(IllegalArgument);
      }
      PrependStep(AlphanumericBits(text), bits, AlphanumericBits(text[start..]),
        MakeBitArray(encodeValue, encodeBitWidth), AlphanumericBits(text[charIdx..]));
      bits := bits + MakeBitArray(encodeValue, encodeBitWidth);
    }
    assert AlphanumericBits(text[len..]) == Ok([]);
    assert bits + [] == bits;
    return Ok(bits);
  }

  /** The outcome for the text from position i on: its first pair or
      single character, in front of the outcome of what follows, or the
      error of an uncoded character. */
  lemma AlphanumericBitsAt(text: string, i: nat)
    requires i < |text|
    ensures var c1 := AlphanumericCode(text[i]);
      i + 1 < |text| && c1.Some? && AlphanumericCode(text[i + 1]).Some? ==>
        AlphanumericBits(text[i..]) ==
        Prepend(MakeBitArray(c1.value * 45 + AlphanumericCode(text[i + 1]).value, 11), AlphanumericBits(text[i + 2..]))
    ensures var c1 := AlphanumericCode(text[i]);
      !(i + 1 < |text| && c1.Some? && AlphanumericCode(text[i + 1]).Some?) && c1.Some? ==>
        AlphanumericBits(text[i..]) == Prepend(MakeBitArray(c1.value, 6), AlphanumericBits(text[i + 1..]))
    ensures AlphanumericCode(text[i]).None? ==> AlphanumericBits(text[i..]) == Err(IllegalArgument)
  {
    var rest := text[i..];
    assert rest[0] == text[i];
    assert rest[1..] == text[i + 1..];
    if i + 1 < |text| {
      assert rest[1] == text[i + 1];
      assert rest[2..] == text[i + 2..];
    }
  }

  /** Moving the next group from the outcome of the rest onto the bits
      already appended keeps the whole outcome. */
  lemma PrependStep(whole: Result<seq<bool>>, bits: seq<bool>, rest: Result<seq<bool>>, group: seq<bool>, more: Result<seq<bool>>)
    requires Prepend(bits, rest) == whole && rest == Prepend(group, more)
    ensures Prepend(bits + group, more) == whole
  {
    PrependAssoc(bits, group, more);
  }

  /** Appending in two steps, in front of an outcome. */
  lemma PrependAssoc(bits: seq<bool>, more: seq<bool>, rest: Result<seq<bool>>)
    ensures Prepend(bits, Prepend(more, rest)) == Prepend(bits + more, rest)
  {
    if rest.Ok? {
      assert bits + (more + rest.value) == bits + more + rest.value;
    }
  }

  /** Reads an alphanumeric payload of n characters back; a pair value
      past 44 * 45 + 44 has no first character and reads as ' '. */
  function DecodeAlphanumeric(bits: seq<bool>, n: nat): (r: string)
    requires |bits| == 11 * (n / 2) + 6 * (n % 2)
    ensures |r| == n
  {
    if n == 0 then []
    else if 1 < n then
      var v := ValueMsb(bits[..11]);
      var first := if v / 45 < 45 then AlphanumericChar(v / 45) else ' ';
      [first, AlphanumericChar(v % 45)] + DecodeAlphanumeric(bits[11..], n - 2)
    else
      var v := ValueMsb(bits);
      [if v < 45 then AlphanumericChar(v) else ' ']
  }

  /** Round trip: an alphanumeric text comes back from its payload. */
  lemma {:induction false} AlphanumericRoundTrip(text: string)
    requires forall i :: 0 <= i < |text| ==> IsAlphanumeric(text[i])
    ensures AlphanumericBits(text).Ok?
    ensures DecodeAlphanumeric(AlphanumericBits(text).value, |text|) == text
    decreases |text|
  {
    if 1 < |text| {
      assert forall i :: 0 <= i < |text| - 2 ==> text[2..][i] == text[i + 2];
      AlphanumericRoundTrip(text[2..]);
      AlphanumericPairStep(text);
      SplitTwo(text);
    } else if |text| == 1 {
      SplitFirst(text);
      AlphanumericSingleRoundTrip(text[0]);
    }
  }

  /** The first pair decodes to its two characters, followed by what the
      rest of the payload decodes to. */
  lemma AlphanumericPairStep(text: string)
    requires 1 < |text| && IsAlphanumeric(text[0]) && IsAlphanumeric(text[1])
    requires AlphanumericBits(text[2..]).Ok?
    ensures AlphanumericBits(text).Ok?
    ensures DecodeAlphanumeric(AlphanumericBits(text).value, |text|) ==
      [text[0], text[1]] + DecodeAlphanumeric(AlphanumericBits(text[2..]).value, |text| - 2)
  {
    AlphanumericBitsFront(text);
    var c1, c2 := AlphanumericCode(text[0]).value, AlphanumericCode(text[1]).value;
    CharOfCode(text[0]);
    CharOfCode(text[1]);
  }

  /** The payload of two or more alphanumeric characters starts with the
      11 bits of the first pair, 45 c1 + c2, followed by the payload of
      the rest. */
  lemma AlphanumericBitsFront(text: string)
    requires 1 < |text| && AlphanumericCode(text[0]).Some? && AlphanumericCode(text[1]).Some?
    requires AlphanumericBits(text[2..]).Ok?
    ensures AlphanumericBits(text).Ok?
    ensures var bits := AlphanumericBits(text).value;
      var c1, c2 := AlphanumericCode(text[0]).value, AlphanumericCode(text[1]).value;
      ValueMsb(bits[..11]) / 45 == c1 && ValueMsb(bits[..11]) % 45 == c2 &&
      bits[11..] == AlphanumericBits(text[2..]).value
  {
    var c1, c2 := AlphanumericCode(text[0]).value, AlphanumericCode(text[1]).value;
    var head, tail := MakeBitArray(c1 * 45 + c2, 11), AlphanumericBits(text[2..]).value;
    AlphanumericBitsUnfold(text);
    ConcatParts(head, tail);
    PairDecodes(c1, c2);
  }

  /** One step of the payload: a leading pair of coded characters. */
  lemma AlphanumericBitsUnfold(text: string)
    requires 1 < |text| && AlphanumericCode(text[0]).Some? && AlphanumericCode(text[1]).Some?
    requires AlphanumericBits(text[2..]).Ok?
    ensures AlphanumericBits(text) ==
      Ok(MakeBitArray(AlphanumericCode(text[0]).value * 45 + AlphanumericCode(text[1]).value, 11) +
        AlphanumericBits(text[2..]).value)
  {
  }

  /** A final single character: six bits, read back. */
  lemma AlphanumericSingleRoundTrip(c: char)
    requires IsAlphanumeric(c)
    ensures AlphanumericBits([c]).Ok?
    ensures DecodeAlphanumeric(AlphanumericBits([c]).value, 1) == [c]
  {
    var code := AlphanumericCode(c).value;
    AlphanumericBitsSingle(c);
    assert Pow2(6) == 64 by {
      assert Pow2(4) == 16;
    }
    MakeBitArrayValue(code, 6);
    CharOfCode(c);
  }

  /** The payload of one coded character is its six bits. */
  lemma AlphanumericBitsSingle(c: char)
    requires AlphanumericCode(c).Some?
    ensures AlphanumericBits([c]) == Ok(MakeBitArray(AlphanumericCode(c).value, 6))
  {
    assert [c][0] == c;
    assert [c][1..] == [];
    assert MakeBitArray(AlphanumericCode(c).value, 6) + [] == MakeBitArray(AlphanumericCode(c).value, 6);
  }

  /** A pair of codes comes back from its 11 bits. */
  lemma PairDecodes(c1: int, c2: int)
    requires 0 <= c1 < 45 && 0 <= c2 < 45
    ensures var v := ValueMsb(MakeBitArray(c1 * 45 + c2, 11));
      v / 45 == c1 && v % 45 == c2
  {
    assert Pow2(11) == 2048 by {
      assert Pow2(4) == 16;
    }
    MakeBitArrayValue(c1 * 45 + c2, 11);
    DivModUnique(c1 * 45 + c2, 45, c1, c2);
  }

  // ---------------------------------------------------------------------
  // Kanji payload

  /** `KanjiLowerReferenceRange` and `KanjiUpperReferenceRange`. */
  const KanjiLowerFirst := 0x8140
  const KanjiLowerLast := 0x9FFC
  const KanjiLowerOffset := 0x8140
  const KanjiUpperFirst := 0xE040
  const KanjiUpperLast := 0xEBBF
  const KanjiUpperOffset := 0xC140

  /** `x << k` on a `UInt8`: the bits shifted past the eighth are lost. */
  function UInt8ShiftLeft(x: int, k: nat): (r: int)
    requires 0 <= x < 256
    ensures 0 <= r < 256
  {
    (x * Pow2(k)) % 256
  }

  /** Shifting a byte by eight leaves nothing. */
  lemma UInt8ShiftByEight(x: int)
    requires 0 <= x < 256
    ensures UInt8ShiftLeft(x, 8) == 0
  {
    assert Pow2(8) == 256 by {
      assert Pow2(4) == 16;
    }
    assert x * 256 == 0 + 256 * x;
  }

  /** The raw code `Int((upperByte << 8) | lowerByte)`: the shift drops
      the whole upper byte, so the raw code is the lower byte alone and
      lies in neither Kanji range. */
  lemma KanjiRawCodeIsLowerByte(upperByte: int, lowerByte: int)
    requires 0 <= upperByte < 256 && 0 <= lowerByte < 256
    ensures Or(UInt8ShiftLeft(upperByte, 8), lowerByte) == lowerByte
    ensures KanjiCode(Or(UInt8ShiftLeft(upperByte, 8), lowerByte)).None?
  {
    UInt8ShiftByEight(upperByte);
  }

  /** The 13-bit value of a raw Shift-JIS code: the range offset is
      subtracted, then the high byte times 0xC0 plus the low byte. A code
      outside both ranges has none. */
  function KanjiCode(rawCode: nat): (r: Option<int>)
    ensures r.Some? <==>
      (KanjiLowerFirst <= rawCode <= KanjiLowerLast || KanjiUpperFirst <= rawCode <= KanjiUpperLast)
    ensures r.Some? ==> 0 <= r.value < 8192
  {
    if KanjiLowerFirst <= rawCode <= KanjiLowerLast || KanjiUpperFirst <= rawCode <= KanjiUpperLast then
      var codeOffset := if KanjiLowerFirst <= rawCode <= KanjiLowerLast then KanjiLowerOffset else KanjiUpperOffset;
      var code := rawCode - codeOffset;
      KanjiValueBound(code);
      Some(code / 256 * 0xC0 + And(code, 0xFF))
    else None
  }

  /** Both shifted ranges give values that fit in 13 bits. */
  lemma KanjiValueBound(code: int)
    requires 0 <= code <= KanjiUpperLast - KanjiUpperOffset
    ensures And(code, 0xFF) == code % 256
    ensures 0 <= code / 256 * 0xC0 + code % 256 < 8192
  {
    Pow2Eight();
    AndLowMask(code, 8);
    var q, r := code / 256, code % 256;
    assert code == q * 256 + r;
    assert q <= 42;
    if q == 42 {
      assert r <= 0x7F;
    } else {
      assert q * 0xC0 <= 41 * 0xC0;
    }
  }

  /** `createKanjiPayload(content:)`. The Shift-JIS conversion is a
      Foundation call; `encoded` is its outcome, None when the text cannot
      be converted. Reading `encodedString[byteIdx + 1]` traps on an odd
      byte count, hence the precondition. The raw code of the first pair
      is in neither range, so the loop never completes a pass: every
      non-empty conversion is rejected and only the empty text encodes,
      to no bits. The loop is therefore written as its first pass. */
  method CreateKanjiPayload(encoded: Option<seq<int>>) returns (r: Result<seq<bool>>)
    requires encoded.Some? ==> |encoded.value| % 2 == 0
    requires encoded.Some? ==> forall i :: 0 <= i < |encoded.value| ==> 0 <= encoded.value[i] < 256
    ensures r == if encoded.Some? && encoded.value == [] then Ok([]) else Err(IllegalArgument)
  {
    if encoded.None? {
      return Err(IllegalArgument);
    }
    var bytes := encoded.value;
    var bits: seq<bool> := [];
    var byteIdx := 0;
    var len := |bytes|;
    if byteIdx < len {
      var upperByte := bytes[byteIdx];
      var lowerByte := bytes[byteIdx + 1];
      var rawCode := Or(UInt8ShiftLeft(upperByte, 8), lowerByte);
      KanjiRawCodeIsLowerByte(upperByte, lowerByte);
      if KanjiLowerFirst <= rawCode <= KanjiLowerLast {
        assert false;
      } else if KanjiUpperFirst <= rawCode <= KanjiUpperLast {
        assert false;
      }
      return Err(IllegalArgument);
    }
    return Ok(bits);
  }

  // ---------------------------------------------------------------------
  // The intended Kanji payload

  /** The raw code of a byte pair as `createKanjiPayload` evidently means
      it: the upper byte shifted in an `Int`, not a `UInt8`. */
  function PairCode(upperByte: int, lowerByte: int): int
  {
    upperByte * 256 + lowerByte
  }

  /** The payload of byte pairs with the shift done in an `Int`: 13 bits
      per pair, and IllegalArgument at the first pair outside both ranges. */
  function KanjiBits(bytes: seq<int>): (r: Result<seq<bool>>)
    requires |bytes| % 2 == 0
    ensures r.Ok? ==> |r.value| == 13 * (|bytes| / 2)
    ensures r.Err? ==> r.error == IllegalArgument
    decreases |bytes|
  {
    if bytes == [] then Ok([])
    else
      match PairValue(bytes[0], bytes[1])
      case None => Err(IllegalArgument)
      case Some(v) => Prepend(MakeBitArray(v, 13), KanjiBits(bytes[2..]))
  }

  /** The 13-bit value of a byte pair, None when its raw code is in
      neither range. */
  function PairValue(upperByte: int, lowerByte: int): (r: Option<int>)
    ensures r.Some? ==> 0 <= r.value < 8192
  {
    if PairCode(upperByte, lowerByte) < 0 then None else KanjiCode(PairCode(upperByte, lowerByte))
  }

  /** The payload from pair i on: the pair's value, then the rest. */
  lemma KanjiBitsStep(bytes: seq<int>, i: int)
    requires |bytes| % 2 == 0 && 0 <= i < |bytes| && i % 2 == 0
    ensures KanjiBits(bytes[i..]) ==
      match PairValue(bytes[i], bytes[i + 1])
      case None => Err(IllegalArgument)
      case Some(v) => Prepend(MakeBitArray(v, 13), KanjiBits(bytes[i + 2..]))
  {
    var rest := bytes[i..];
    assert rest[0] == bytes[i] && rest[1] == bytes[i + 1] && rest[2..] == bytes[i + 2..];
  }

  /** One pass of the intended loop: a pair outside both ranges makes the
      whole payload IllegalArgument; otherwise its 13 bits join the bits so
      far. */
  lemma EvenLessTwo(n: int)
    requires n % 2 == 0 && n >= 2
    ensures (n - 2) % 2 == 0
  {
  }

  lemma KanjiLoopStep(whole: Result<seq<bool>>, bits: seq<bool>, rest: seq<int>)
    requires |rest| % 2 == 0 && |rest| >= 2
    requires Prepend(bits, KanjiBits(rest)) == whole
    ensures PairValue(rest[0], rest[1]).None? ==> whole == Err(IllegalArgument)
    ensures PairValue(rest[0], rest[1]).Some? ==>
      Prepend(bits + MakeBitArray(PairValue(rest[0], rest[1]).value, 13), KanjiBits(rest[2..])) == whole
  {
    EvenLessTwo(|rest|);
    assert |rest[2..]| == |rest| - 2;
    if PairValue(rest[0], rest[1]).Some? {
      PrependAssoc(bits, MakeBitArray(PairValue(rest[0], rest[1]).value, 13), KanjiBits(rest[2..]));
    }
  }

  /** `createKanjiPayload(content:)` with the intended 16-bit raw code: the
      loop over the byte pairs builds `KanjiBits` of the converted text. */
  method IntendedKanjiPayload(encoded: Option<seq<int>>) returns (r: Result<seq<bool>>)
    requires encoded.Some? ==> |encoded.value| % 2 == 0
    requires encoded.Some? ==> forall i :: 0 <= i < |encoded.value| ==> 0 <= encoded.value[i] < 256
    ensures encoded.None? ==> r == Err(IllegalArgument)
    ensures encoded.Some? ==> r == KanjiBits(encoded.value)
  {
    if encoded.None? {
      return Err(IllegalArgument);
    }
    var bytes := encoded.value;
    var bits: seq<bool> := [];
    var byteIdx := 0;
    assert bytes[byteIdx..] == bytes;
    PrependNothing(KanjiBits(bytes));
    while byteIdx < |bytes|
      invariant 0 <= byteIdx <= |bytes| && (|bytes| - byteIdx) % 2 == 0
      invariant Prepend(bits, KanjiBits(bytes[byteIdx..])) == KanjiBits(bytes)
      decreases |bytes| - byteIdx
    {
      EvenLessTwo(|bytes| - byteIdx);
      var codeValue := PairValue(bytes[byteIdx], bytes[byteIdx + 1]);
      ghost var rest := bytes[byteIdx..];
      assert rest[0] == bytes[byteIdx] && rest[1] == bytes[byteIdx + 1] && rest[2..] == bytes[byteIdx + 2..];
      KanjiLoopStep(KanjiBits(bytes), bits, rest);
      if codeValue.None? {
        return Err(IllegalArgument);
      }
      bits := bits + MakeBitArray(codeValue.value, 13);
      byteIdx := byteIdx + 2;
    }
    assert bytes[byteIdx..] == [] && bits + [] == bits;
    return Ok(bits);
  }

  /** A Shift-JIS double-byte character of the Kanji set (ISO/IEC
      18004:2006 section 6.4.5): a raw code in one of the two ranges whose
      second byte lies in 0x40 .. 0xFC. */
  predicate KanjiPair(upperByte: int, lowerByte: int)
  {
    && 0 <= upperByte < 256 && 0x40 <= lowerByte <= 0xFC
    && var raw := PairCode(upperByte, lowerByte);
    (KanjiLowerFirst <= raw <= KanjiLowerLast || KanjiUpperFirst <= raw <= KanjiUpperLast)
  }

  /** The raw code a 13-bit Kanji value stands for: the value split by
      0xC0 into a high and a low byte, and the offset of the range that
      holds the result added back. */
  function KanjiRaw(v: nat): int
  {
    var code := v / 0xC0 * 256 + v % 0xC0;
    code + (if code < 0x1F00 then KanjiLowerOffset else KanjiUpperOffset)
  }

  /** Reads n 13-bit Kanji values back as byte pairs. */
  function DecodeKanji(bits: seq<bool>, n: nat): (r: seq<int>)
    requires |bits| == 13 * n
    ensures |r| == 2 * n
  {
    if n == 0 then []
    else
      var raw := KanjiRaw(ValueMsb(bits[..13]));
      [raw / 256, raw % 256] + DecodeKanji(bits[13..], n - 1)
  }

  /** One character: its 13-bit value reads back to its two bytes. */
  lemma KanjiPairRoundTrip(upperByte: int, lowerByte: int)
    requires KanjiPair(upperByte, lowerByte)
    ensures PairValue(upperByte, lowerByte).Some?
    ensures var raw := KanjiRaw(ValueMsb(MakeBitArray(PairValue(upperByte, lowerByte).value, 13)));
      raw / 256 == upperByte && raw % 256 == lowerByte
  {
    var raw := PairCode(upperByte, lowerByte);
    var lower := KanjiLowerFirst <= raw <= KanjiLowerLast;
    var high := upperByte - (if lower then KanjiLowerOffset else KanjiUpperOffset) / 256;
    var low := lowerByte - 0x40;
    KanjiPairValue(upperByte, lowerByte, high, low);
    var v := high * 0xC0 + low;
    assert Pow2(13) == 8192 by {
      assert Pow2(4) == 16;
    }
    MakeBitArrayValue(v, 13);
    KanjiRawOfValue(high, low, lower);
    DivModUnique(raw, 256, upperByte, lowerByte);
  }

  /** The 13-bit value of a Kanji pair: (upper byte less the range's high
      offset byte) * 0xC0 + (lower byte - 0x40). */
  lemma KanjiPairValue(upperByte: int, lowerByte: int, high: int, low: int)
    requires KanjiPair(upperByte, lowerByte)
    requires high == upperByte - (if KanjiLowerFirst <= PairCode(upperByte, lowerByte) <= KanjiLowerLast then KanjiLowerOffset else KanjiUpperOffset) / 256
    requires low == lowerByte - 0x40
    ensures 0 <= low < 0xC0 && 0 <= high <= 42
    ensures (KanjiLowerFirst <= PairCode(upperByte, lowerByte) <= KanjiLowerLast) <==> high * 256 + low < 0x1F00
    ensures PairCode(upperByte, lowerByte) == high * 256 + low +
      (if high * 256 + low < 0x1F00 then KanjiLowerOffset else KanjiUpperOffset)
    ensures PairValue(upperByte, lowerByte) == Some(high * 0xC0 + low)
  {
    var raw := PairCode(upperByte, lowerByte);
    var offset := if KanjiLowerFirst <= raw <= KanjiLowerLast then KanjiLowerOffset else KanjiUpperOffset;
    var code := raw - offset;
    assert code == high * 256 + low;
    KanjiValueBound(code);
    DivModUnique(code, 256, high, low);
  }

  /** A value split by 0xC0 gives back the code it was made of. */
  lemma KanjiRawOfValue(high: int, low: int, lower: bool)
    requires 0 <= low < 0xC0 && 0 <= high <= 42
    ensures KanjiRaw(high * 0xC0 + low) ==
      high * 256 + low + (if high * 256 + low < 0x1F00 then KanjiLowerOffset else KanjiUpperOffset)
  {
    DivModUnique(high * 0xC0 + low, 0xC0, high, low);
  }

  lemma PairsAreBytes(bytes: seq<int>)
    requires |bytes| % 2 == 0
    requires forall k :: 0 <= k < |bytes| / 2 ==> KanjiPair(bytes[2 * k], bytes[2 * k + 1])
    ensures forall i :: 0 <= i < |bytes| ==> 0 <= bytes[i] < 256
  {
    forall i | 0 <= i < |bytes|
      ensures 0 <= bytes[i] < 256
    {
      assert KanjiPair(bytes[2 * (i / 2)], bytes[2 * (i / 2) + 1]);
      assert i == 2 * (i / 2) || i == 2 * (i / 2) + 1;
    }
  }

  lemma RestArePairs(bytes: seq<int>)
    requires |bytes| % 2 == 0 && |bytes| >= 2
    requires forall k :: 0 <= k < |bytes| / 2 ==> KanjiPair(bytes[2 * k], bytes[2 * k + 1])
    ensures forall k :: 0 <= k < |bytes[2..]| / 2 ==> KanjiPair(bytes[2..][2 * k], bytes[2..][2 * k + 1])
  {
    var rest := bytes[2..];
    forall k | 0 <= k < |rest| / 2
      ensures KanjiPair(rest[2 * k], rest[2 * k + 1])
    {
      assert rest[2 * k] == bytes[2 * (k + 1)] && rest[2 * k + 1] == bytes[2 * (k + 1) + 1];
    }
  }

  /** Round trip: a text of Kanji characters comes back from its intended
      payload. */
  lemma {:induction false} KanjiRoundTrip(bytes: seq<int>)
    requires |bytes| % 2 == 0
    requires forall k :: 0 <= k < |bytes| / 2 ==> KanjiPair(bytes[2 * k], bytes[2 * k + 1])
    ensures forall i :: 0 <= i < |bytes| ==> 0 <= bytes[i] < 256
    ensures KanjiBits(bytes).Ok?
    ensures DecodeKanji(KanjiBits(bytes).value, |bytes| / 2) == bytes
    decreases |bytes|
  {
    PairsAreBytes(bytes);
    if bytes != [] {
      var rest := bytes[2..];
      var first := 0;
      assert KanjiPair(bytes[2 * first], bytes[2 * first + 1]);
      RestArePairs(bytes);
      KanjiRoundTrip(rest);
      KanjiPairRoundTrip(bytes[0], bytes[1]);
      var v := PairValue(bytes[0], bytes[1]).value;
      var head, tail := MakeBitArray(v, 13), KanjiBits(rest).value;
      assert KanjiBits(bytes) == Ok(head + tail);
      ConcatParts(head, tail);
      SplitTwo(bytes);
    }
  }

  /** As written, the first pair of the character 0x8140 is rejected; with
      the intended shift it is the value 0, thirteen zero bits. */
  lemma KanjiShiftAsWritten()
    ensures KanjiCode(Or(UInt8ShiftLeft(0x81, 8), 0x40)).None?
    ensures KanjiBits([0x81, 0x40]) == Ok(MakeBitArray(0, 13))
  {
    KanjiRawCodeIsLowerByte(0x81, 0x40);
    assert PairValue(0x81, 0x40) == Some(0) by {
      KanjiValueBound(0);
    }
    var bytes := [0x81, 0x40];
    assert bytes[0] == 0x81 && bytes[1] == 0x40 && bytes[2..] == [];
    assert MakeBitArray(0, 13) + [] == MakeBitArray(0, 13);
  }

  // ---------------------------------------------------------------------
  // Byte payload and dispatch

  /** The `forEach` of `createGenericPayload`: eight bits per byte. */
  method AppendBytes(bytes: seq<int>) returns (bits: seq<bool>)
    ensures bits == BitsOfBytes(bytes)
  {
    bits := [];
    for i := 0 to |bytes|
      invariant bits + BitsOfBytes(bytes[i..]) == BitsOfBytes(bytes)
    {
      assert bytes[i..][1..] == bytes[i + 1..];
      bits := bits + MakeBitArray(bytes[i], 8);
    }
  }

  /** `createGenericPayload(content:encoding:)`. The conversion to the
      character set is a Foundation call; `encoded` is its outcome, None
      when there is no encoding or the text cannot be converted. */
  method CreateGenericPayload(encoded: Option<seq<int>>) returns (r: Result<seq<bool>>)
    ensures encoded.None? ==> r == Err(IllegalArgument)
    ensures encoded.Some? ==> r == Ok(BitsOfBytes(encoded.value))
  {
    if encoded.None? {
      return Err(IllegalArgument);
    }
    var bits := AppendBytes(encoded.value);
    return Ok(bits);
  }

  /** The payload of a text in a mode. `encoded` is the outcome of the
      conversion to the requested character set (for Byte) or to
      Shift-JIS (for Kanji). */
  predicate PayloadArguments(mode: Mode, text: string, encoded: Option<seq<int>>)
  {
    (mode == Numeric ==> forall i :: 0 <= i < |text| ==> '0' <= text[i]) &&
    (mode == Kanji && encoded.Some? ==>
      |encoded.value| % 2 == 0 && forall i :: 0 <= i < |encoded.value| ==> 0 <= encoded.value[i] < 256)
  }

  /** `createDataPayload(content:mode:encoding:)`: the payload builder of
      the mode; other modes are an IllegalArgument error. */
  function DataPayload(mode: Mode, text: string, encoded: Option<seq<int>>): (r: Result<seq<bool>>)
    requires PayloadArguments(mode, text, encoded)
    ensures mode !in {Numeric, Alphanumeric, Kanji, Byte} ==> r == Err(IllegalArgument)
    ensures mode == Numeric ==> r.Ok? && |r.value| == NumericLength(|text|)
    ensures mode == Alphanumeric ==>
      (r.Ok? <==> forall i :: 0 <= i < |text| ==> IsAlphanumeric(text[i]))
    ensures mode == Byte ==> (r.Ok? <==> encoded.Some?) && (r.Ok? ==> |r.value| == 8 * |encoded.value|)
    ensures mode == Kanji ==> r == if encoded.Some? && encoded.value == [] then Ok([]) else Err(IllegalArgument)
  {
    match mode
    case Numeric => Ok(NumericBits(text))
    case Alphanumeric => AlphanumericBitsRejects(text); AlphanumericBits(text)
    case Kanji => if encoded.Some? && encoded.value == [] then Ok([]) else Err(IllegalArgument)
    case Byte => if encoded.None? then Err(IllegalArgument) else Ok(BitsOfBytes(encoded.value))
    case _ => Err(IllegalArgument)
  }

  /** `createDataPayload` as the encoder runs it. */
  method CreateDataPayload(mode: Mode, text: string, encoded: Option<seq<int>>) returns (r: Result<seq<bool>>)
    requires PayloadArguments(mode, text, encoded)
    ensures r == DataPayload(mode, text, encoded)
  {
    match mode
    case Numeric =>
      var bits := CreateNumericPayload(text);
      r := Ok(bits);
    case Alphanumeric =>
      r := CreateAlphanumericPayload(text);
    case Kanji =>
      r := CreateKanjiPayload(encoded);
    case Byte =>
      r := CreateGenericPayload(encoded);
    case _ =>
      r := Err(IllegalArgument);
  }

  // ---------------------------------------------------------------------
  // Terminator and padding

  /** The pad codewords from byte `from` up to byte `upTo`: 0xEC at even
      byte indices, 0x11 at odd ones. */
  function PadBytes(from: int, upTo: int): (r: seq<bool>)
    requires 0 <= from <= upTo
    ensures |r| == 8 * (upTo - from)
    decreases upTo - from
  {
    if from == upTo then []
    else PadBytes(from, upTo - 1) + MakeBitArray(PadCodeword(upTo - 1), 8)
  }

  /** The number of terminator zeros: at most four, and none past the
      capacity. */
  function TerminatorLength(count: int, bitsCapacity: int): (r: nat)
    ensures r <= 4
    ensures count <= bitsCapacity ==> count + r <= bitsCapacity
  {
    if bitsCapacity - count >= 4 then 4 else if bitsCapacity - count <= 0 then 0 else bitsCapacity - count
  }

  /** The zeros up to the next byte boundary. */
  function AlignmentLength(count: nat): (r: nat)
    ensures (count + r) % 8 == 0 && r < 8
  {
    if count % 8 > 0 then 8 - count % 8 else 0
  }

  /** The stream with its terminator zeros. */
  function WithTerminator(data: seq<bool>, bitsCapacity: int): (r: seq<bool>)
    requires |data| <= bitsCapacity
    ensures |data| <= |r| <= bitsCapacity
  {
    data + Zeros(TerminatorLength(|data|, bitsCapacity))
  }

  /** The stream padded with zeros to a byte boundary. */
  function Aligned(s: seq<bool>): (r: seq<bool>)
    ensures |r| % 8 == 0 && |r| == (|s| + 7) / 8 * 8
  {
    s + Zeros(AlignmentLength(|s|))
  }

  /** What `terminateCode` leaves in `data` on success. */
  function Terminated(data: seq<bool>, bytesCapacity: int): (r: seq<bool>)
    requires |data| <= 8 * bytesCapacity
    ensures |r| == 8 * bytesCapacity
  {
    var withTerminator := WithTerminator(data, 8 * bytesCapacity);
    RoundUpWithin(|withTerminator|, bytesCapacity);
    var aligned := Aligned(withTerminator);
    aligned + PadBytes(|aligned| / 8, bytesCapacity)
  }

  /** A whole number of bytes rounds up to itself. */
  lemma ByteCount(n: nat)
    requires n % 8 == 0
    ensures (n + 7) / 8 == n / 8
  {
  }

  /** A whole number of bytes within the capacity: its byte count is
      exact and at most the capacity. */
  lemma AlignedByteCount(n: nat, bytesCapacity: int)
    requires n % 8 == 0 && n <= 8 * bytesCapacity
    ensures (n + 7) / 8 == n / 8 <= bytesCapacity && 8 * (n / 8) == n
  {
    ByteCount(n);
  }

  /** One more pad codeword at the end of the run. */
  lemma PadBytesStep(out: seq<bool>, prefix: seq<bool>, from: nat, upTo: int)
    requires from <= upTo && out == prefix + PadBytes(from, upTo)
    ensures out + MakeBitArray(PadCodeword(upTo), 8) == prefix + PadBytes(from, upTo + 1)
  {
    var run, next := PadBytes(from, upTo), MakeBitArray(PadCodeword(upTo), 8);
    assert PadBytes(from, upTo + 1) == run + next;
    AppendAssoc(prefix, run, next);
  }

  /** Rounding a count within a whole number of bytes up to a byte
      boundary stays within it. */
  lemma RoundUpWithin(count: nat, bytes: int)
    requires count <= 8 * bytes
    ensures count + AlignmentLength(count) <= 8 * bytes
    ensures (count + AlignmentLength(count)) / 8 == (count + 7) / 8
  {
  }

  /** `terminateCode(version:errorCorrectionLevel:data:)`: rejects a
      stream already past the capacity; appends up to four terminator
      zeros, zeros to a byte boundary and alternating pad codewords; and
      rejects a result that does not fill the capacity exactly. */
  method TerminateCode(version: Version, level: ErrorCorrectionLevel, data: seq<bool>) returns (r: Result<seq<bool>>)
    ensures var bytesCapacity := MaxDataBytes(version, level);
      r == if |data| > 8 * bytesCapacity then Err(InvalidFormat) else Ok(Terminated(data, bytesCapacity))
  {
    var bytesCapacity := MaxDataBytes(version, level);
    var bitsCapacity := bytesCapacity * 8;
    if |data| > bitsCapacity {
      return Err(InvalidFormat);
    }
    var out := data;
    for i := 0 to 4
      invariant |out| == |data| + i <= bitsCapacity
      invariant out == data + Zeros(i)
    {
      if |out| >= bitsCapacity {
        break;
      }
      out := out + [false];
    }
    assert out == WithTerminator(data, bitsCapacity);
    var withTerminator := out;
    var partialByteSize := |out| % 8;
    if partialByteSize > 0 {
      for i := partialByteSize to 8
        invariant out == withTerminator + Zeros(i - partialByteSize)
      {
        out := out + [false];
      }
    }
    assert out == Aligned(withTerminator);
    RoundUpWithin(|withTerminator|, bytesCapacity);
    ByteCount(|out|);
    out := AppendPadCodewords(out, bytesCapacity);
    assert out == Terminated(data, bytesCapacity);
    if |out| != bitsCapacity {
      return Err(InvalidFormat);
    }
    return Ok(out);
  }

  /** The pad loop of `terminateCode`: pad codewords from the first
      byte after the aligned stream up to the capacity. */
  method AppendPadCodewords(aligned: seq<bool>, bytesCapacity: int) returns (out: seq<bool>)
    requires |aligned| % 8 == 0 && |aligned| <= 8 * bytesCapacity
    ensures out == aligned + PadBytes(|aligned| / 8, bytesCapacity)
    ensures |out| == 8 * bytesCapacity
  {
    var dataBytes := (|aligned| + 7) / 8;
    AlignedByteCount(|aligned|, bytesCapacity);
    out := aligned;
    for idx := dataBytes to bytesCapacity
      invariant out == aligned + PadBytes(dataBytes, idx)
    {
      PadBytesStep(out, aligned, dataBytes, idx);
      out := out + MakeBitArray(PadCodeword(idx), 8);
    }
  }

  /** The data, then zero bits up to the first pad byte. */
  lemma TerminatedFill(data: seq<bool>, bytesCapacity: int)
    requires |data| <= 8 * bytesCapacity
    ensures var t := Terminated(data, bytesCapacity);
      var withTerminator := |data| + TerminatorLength(|data|, 8 * bytesCapacity);
      var padStart := (withTerminator + 7) / 8;
      t[..|data|] == data &&
      (forall i :: |data| <= i < 8 * padStart ==> !t[i])
  {
    var t := Terminated(data, bytesCapacity);
    var withTerminator := WithTerminator(data, 8 * bytesCapacity);
    RoundUpWithin(|withTerminator|, bytesCapacity);
    var aligned := Aligned(withTerminator);
    var padStart := |aligned| / 8;
    assert t == aligned + PadBytes(padStart, bytesCapacity);
    assert t[..|data|] == data;
    forall i | |data| <= i < 8 * padStart
      ensures !t[i]
    {
      if i < |withTerminator| {
        assert t[i] == withTerminator[i];
      } else {
        assert t[i] == aligned[i];
      }
    }
  }

  /** Byte k past the aligned data is the pad codeword of k. */
  lemma TerminatedPad(data: seq<bool>, bytesCapacity: int, k: nat)
    requires |data| <= 8 * bytesCapacity
    ensures var t := Terminated(data, bytesCapacity);
      var withTerminator := |data| + TerminatorLength(|data|, 8 * bytesCapacity);
      var padStart := (withTerminator + 7) / 8;
      padStart <= k < bytesCapacity ==>
        ValueMsb(t[8 * k..8 * k + 8]) == if k % 2 == 0 then 0xEC else 0x11
  {
    var t := Terminated(data, bytesCapacity);
    var withTerminator := WithTerminator(data, 8 * bytesCapacity);
    RoundUpWithin(|withTerminator|, bytesCapacity);
    var aligned := Aligned(withTerminator);
    var padStart := |aligned| / 8;
    var q := (|withTerminator| + 7) / 8;
    DivModUnique(|aligned|, 8, q, 0);
    if padStart <= k < bytesCapacity {
      AlignedThenPad(aligned, padStart, bytesCapacity, k);
      Pow2Eight();
      MakeBitArrayValue(PadCodeword(k), 8);
    }
  }

  /** Byte k of the aligned stream followed by the pad run is the pad
      codeword of k. */
  lemma AlignedThenPad(aligned: seq<bool>, padStart: int, bytesCapacity: int, k: int)
    requires 0 <= padStart <= k < bytesCapacity && |aligned| == 8 * padStart
    ensures (aligned + PadBytes(padStart, bytesCapacity))[8 * k..8 * k + 8] == MakeBitArray(PadCodeword(k), 8)
  {
    var pad := PadBytes(padStart, bytesCapacity);
    var j := 8 * (k - padStart);
    PadBytesAt(padStart, bytesCapacity, k);
    ConcatSliceRight(aligned, pad, j, j + 8);
  }

  /** 2^8 == 256. */
  lemma Pow2Eight()
    ensures Pow2(8) == 256
  {
    assert Pow2(4) == 16;
  }

  /** Byte k of the pad run is the pad codeword of k. */
  lemma {:induction false} PadBytesAt(from: int, upTo: int, k: int)
    requires 0 <= from <= k < upTo
    ensures PadBytes(from, upTo)[8 * (k - from)..8 * (k - from) + 8] == MakeBitArray(PadCodeword(k), 8)
    decreases upTo - from
  {
    var front := PadBytes(from, upTo - 1);
    var last := MakeBitArray(PadCodeword(upTo - 1), 8);
    assert PadBytes(from, upTo) == front + last;
    if k < upTo - 1 {
      PadBytesAt(from, upTo - 1, k);
      ConcatSliceLeft(front, last, 8 * (k - from), 8 * (k - from) + 8);
    } else {
      ConcatSliceRight(front, last, 0, 8);
      assert last[0..8] == last;
    }
  }


  // ---------------------------------------------------------------------
  // The pad run as ISO/IEC 18004 section 7.4.10 lays it out

  /** `terminateCode` with the pad codewords counted from the first pad
      byte rather than from the start of the stream, so that the run
      always begins with 0xEC. */
  function IntendedTerminated(data: seq<bool>, bytesCapacity: int): (r: seq<bool>)
    requires |data| <= 8 * bytesCapacity
    ensures |r| == 8 * bytesCapacity
  {
    var withTerminator := WithTerminator(data, 8 * bytesCapacity);
    RoundUpWithin(|withTerminator|, bytesCapacity);
    var aligned := Aligned(withTerminator);
    aligned + PadBytes(0, bytesCapacity - |aligned| / 8)
  }

  /** In the intended stream, pad byte i (counted from the first pad byte)
      is 0xEC for even i and 0x11 for odd i. */
  lemma IntendedPadAlternates(data: seq<bool>, bytesCapacity: int, i: nat)
    requires |data| <= 8 * bytesCapacity
    ensures var t := IntendedTerminated(data, bytesCapacity);
      var withTerminator := |data| + TerminatorLength(|data|, 8 * bytesCapacity);
      var k := (withTerminator + 7) / 8 + i;
      k < bytesCapacity ==> ValueMsb(t[8 * k..8 * k + 8]) == if i % 2 == 0 then 0xEC else 0x11
  {
    var withTerminator := WithTerminator(data, 8 * bytesCapacity);
    RoundUpWithin(|withTerminator|, bytesCapacity);
    var aligned := Aligned(withTerminator);
    var padStart := |aligned| / 8;
    var q := (|withTerminator| + 7) / 8;
    DivModUnique(|aligned|, 8, q, 0);
    var k := padStart + i;
    if k < bytesCapacity {
      IntendedAlignedThenPad(aligned, padStart, bytesCapacity, k);
      Pow2Eight();
      MakeBitArrayValue(PadCodeword(i), 8);
    }
  }

  /** Byte k of the aligned stream followed by the intended pad run is the
      pad codeword of k - padStart. */
  lemma IntendedAlignedThenPad(aligned: seq<bool>, padStart: int, bytesCapacity: int, k: int)
    requires 0 <= padStart <= k < bytesCapacity && |aligned| == 8 * padStart
    ensures (aligned + PadBytes(0, bytesCapacity - padStart))[8 * k..8 * k + 8] ==
            MakeBitArray(PadCodeword(k - padStart), 8)
  {
    var n, i := bytesCapacity - padStart, k - padStart;
    var pad := PadBytes(0, n);
    PadRunAt(n, i);
    ConcatSliceRight(aligned, pad, 8 * i, 8 * i + 8);
    assert |aligned| + 8 * i == 8 * k;
    assert (aligned + pad)[8 * k..8 * k + 8] == pad[8 * i..8 * i + 8];
    assert PadCodeword(k - padStart) == PadCodeword(i);
  }

  /** Codeword i of a pad run counted from its first byte. */
  lemma PadRunAt(n: nat, i: nat)
    requires i < n
    ensures PadBytes(0, n)[8 * i..8 * i + 8] == MakeBitArray(PadCodeword(i), 8)
  {
    PadBytesAt(0, n, i);
  }

  /** From an even byte index the pad codewords of the code as written
      are the intended ones. */
  lemma {:induction false} PadBytesFromEven(p: nat, upTo: nat)
    requires p % 2 == 0 && p <= upTo
    ensures PadBytes(p, upTo) == PadBytes(0, upTo - p)
    decreases upTo - p
  {
    if p < upTo {
      var last := upTo - 1;
      PadBytesFromEven(p, last);
      SameParityPad(p, last - p);
      assert p + (last - p) == last;
      PadBytesSnoc(p, last, upTo);
      PadBytesSnoc(0, last - p, upTo - p);
      SameSnoc(PadBytes(p, upTo), PadBytes(0, upTo - p), PadBytes(p, last), PadBytes(0, last - p),
        MakeBitArray(PadCodeword(last), 8), MakeBitArray(PadCodeword(last - p), 8));
    }
  }

  /** Equal fronts followed by equal backs are equal. */
  lemma SameSnoc(s: seq<bool>, t: seq<bool>, a: seq<bool>, b: seq<bool>, x: seq<bool>, y: seq<bool>)
    requires s == a + x && t == b + y && a == b && x == y
    ensures s == t
  {
  }

  /** One more pad codeword at the end of the run. */
  lemma PadBytesSnoc(from: nat, upTo: nat, next: nat)
    requires from <= upTo && next == upTo + 1
    ensures PadBytes(from, next) == PadBytes(from, upTo) + MakeBitArray(PadCodeword(upTo), 8)
  {
  }

  /** Adding an even number keeps the pad codeword. */
  lemma SameParityPad(p: nat, m: nat)
    requires p % 2 == 0
    ensures PadCodeword(p + m) == PadCodeword(m)
  {
    var h := p / 2;
    assert p == 2 * h;
    assert (p + m) % 2 == m % 2;
  }

  /** The stream as written is the intended one exactly when the pad run
      starts at an even byte index, or there is no pad run. */
  lemma PadAsWrittenIsIntended(data: seq<bool>, bytesCapacity: int)
    requires |data| <= 8 * bytesCapacity
    ensures var withTerminator := |data| + TerminatorLength(|data|, 8 * bytesCapacity);
      var padStart := (withTerminator + 7) / 8;
      Terminated(data, bytesCapacity) == IntendedTerminated(data, bytesCapacity) <==>
        padStart % 2 == 0 || padStart == bytesCapacity
  {
    var padStart := (|data| + TerminatorLength(|data|, 8 * bytesCapacity) + 7) / 8;
    if padStart % 2 == 0 || padStart == bytesCapacity {
      PadFromEvenIsIntended(data, bytesCapacity);
    } else {
      PadFromOddDiffers(data, bytesCapacity);
    }
  }

  /** A pad run from an even byte index, or no pad run, is the intended one. */
  lemma PadFromEvenIsIntended(data: seq<bool>, bytesCapacity: int)
    requires |data| <= 8 * bytesCapacity
    requires var padStart := (|data| + TerminatorLength(|data|, 8 * bytesCapacity) + 7) / 8;
      padStart % 2 == 0 || padStart == bytesCapacity
    ensures Terminated(data, bytesCapacity) == IntendedTerminated(data, bytesCapacity)
  {
    var withTerminator := WithTerminator(data, 8 * bytesCapacity);
    RoundUpWithin(|withTerminator|, bytesCapacity);
    var aligned := Aligned(withTerminator);
    var padStart := |aligned| / 8;
    DivModUnique(|aligned|, 8, (|withTerminator| + 7) / 8, 0);
    var n := bytesCapacity - padStart;
    assert padStart + n == bytesCapacity;
    if padStart % 2 == 0 {
      PadBytesFromEven(padStart, bytesCapacity);
    } else {
      assert PadBytes(padStart, bytesCapacity) == [] == PadBytes(0, n);
    }
    assert Terminated(data, bytesCapacity) == aligned + PadBytes(padStart, bytesCapacity);
    assert IntendedTerminated(data, bytesCapacity) == aligned + PadBytes(0, n);
  }

  /** A pad run from an odd byte index starts with 0x11 as written and
      with 0xEC as intended. */
  lemma PadFromOddDiffers(data: seq<bool>, bytesCapacity: int)
    requires |data| <= 8 * bytesCapacity
    requires var padStart := (|data| + TerminatorLength(|data|, 8 * bytesCapacity) + 7) / 8;
      padStart % 2 == 1 && padStart < bytesCapacity
    ensures Terminated(data, bytesCapacity) != IntendedTerminated(data, bytesCapacity)
  {
    var padStart := (|data| + TerminatorLength(|data|, 8 * bytesCapacity) + 7) / 8;
    TerminatedPad(data, bytesCapacity, padStart);
    IntendedPadAlternates(data, bytesCapacity, 0);
  }

  /** As written, an 18-bit stream, such as numeric "1" in a version 1-L
      symbol (4 + 10 + 4 bits, 19 data bytes), gets 0x11 as its first pad
      byte, byte 3, where the intended run starts with 0xEC. */
  lemma FirstPadAsWritten(data: seq<bool>, bytesCapacity: int)
    requires |data| == 18 && bytesCapacity >= 4
    ensures ValueMsb(Terminated(data, bytesCapacity)[24..32]) == 0x11
    ensures ValueMsb(IntendedTerminated(data, bytesCapacity)[24..32]) == 0xEC
  {
    assert TerminatorLength(18, 8 * bytesCapacity) == 4;
    TerminatedPad(data, bytesCapacity, 3);
    IntendedPadAlternates(data, bytesCapacity, 0);
  }
}
