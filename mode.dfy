/** `ZXMode`: the data modes with their four-bit indicators (ISO/IEC
    18004:2006 section 6.4.1, Table 2) and character-count widths
    (Table 3). */
module Modes {
  import opened Errors

  datatype Mode =
    | Terminator | Numeric | Alphanumeric | Byte | ECI | StructuredAppend
    | Kanji | Hanzi | FNC1FirstPosition | FNC1SecondPosition

  /** `bits`: the raw value of the case. */
  function Bits(mode: Mode): (r: int)
    ensures 0 <= r < 16
  {
    match mode
    case Terminator => 0x00
    case Numeric => 0x01
    case Alphanumeric => 0x02
    case Byte => 0x04
    case ECI => 0x07
    case StructuredAppend => 0x03
    case Kanji => 0x08
    case Hanzi => 0x0D
    case FNC1FirstPosition => 0x05
    case FNC1SecondPosition => 0x09
  }

  /** `CharacterCountBits`: the widths for the three version tiers. */
  function CharacterCountTable(mode: Mode): (r: seq<int>)
    ensures |r| == 3
  {
    match mode
    case Numeric => [10, 12, 14]
    case Alphanumeric => [9, 11, 13]
    case Byte => [8, 16, 16]
    case Terminator | ECI | StructuredAppend | FNC1FirstPosition | FNC1SecondPosition => [0, 0, 0]
    case Kanji | Hanzi => [8, 10, 12]
  }

  /** The version tier: 0 up to version 9, 1 up to 26, 2 above. */
  function Tier(versionNumber: int): (r: int)
    ensures 0 <= r <= 2
    ensures r == 0 <==> versionNumber <= 9
    ensures r == 2 <==> versionNumber > 26
  {
    if versionNumber <= 9 then 0 else if versionNumber <= 26 then 1 else 2
  }

  /** `characterCountBits(version:)`; only the version number is read. */
  function CharacterCountBits(mode: Mode, versionNumber: int): (r: int)
    ensures r == CharacterCountTable(mode)[Tier(versionNumber)]
  {
    var offset := if versionNumber <= 9 then 0 else if versionNumber <= 26 then 1 else 2;
    CharacterCountTable(mode)[offset]
  }

  /** The count-field width never shrinks as the version grows, and is
      nonzero exactly for the data modes. */
  lemma CharacterCountMonotone(mode: Mode, v1: int, v2: int)
    requires v1 <= v2
    ensures 0 <= CharacterCountBits(mode, v1) <= CharacterCountBits(mode, v2) <= 16
    ensures CharacterCountBits(mode, v1) > 0 <==> mode in {Numeric, Alphanumeric, Byte, Kanji, Hanzi}
  {
  }

  /** '0' to '9'. */
  predicate IsDigit(c: char)
  {
    '0' <= c <= '9'
  }

  /** The 45 characters of the alphanumeric set: digits, 'A' to 'Z',
      space and $ % * + - . / : */
  predicate IsAlphanumeric(c: char)
  {
    IsDigit(c) || 'A' <= c <= 'Z' ||
    c == ' ' || c == '$' || c == '%' || c == '*' || c == '+' || c == '-' || c == '.' || c == '/' || c == ':'
  }

  /** The scan of `supportsContent` for Numeric: stops at the first
      scalar outside '0'...'9'. */
  function AllDigits(text: string): (r: bool)
    ensures r <==> forall i :: 0 <= i < |text| ==> IsDigit(text[i])
  {
    if text == [] then true
    else if !IsDigit(text[0]) then false
    else AllDigits(text[1..])
  }

  /** The scan of `supportsContent` for Alphanumeric. */
  function AllAlphanumeric(text: string): (r: bool)
    ensures r <==> forall i :: 0 <= i < |text| ==> IsAlphanumeric(text[i])
  {
    if text == [] then true
    else if !IsAlphanumeric(text[0]) then false
    else AllAlphanumeric(text[1..])
  }

  /** `supportsContent(_:)`. The Kanji test converts to Shift-JIS, a
      Foundation call; its outcome is the parameter `shiftJisConvertible`. */
  function SupportsContent(mode: Mode, text: string, shiftJisConvertible: bool): (r: bool)
    ensures mode == Numeric ==> (r <==> forall i :: 0 <= i < |text| ==> IsDigit(text[i]))
    ensures mode == Alphanumeric ==> (r <==> forall i :: 0 <= i < |text| ==> IsAlphanumeric(text[i]))
    ensures mode == Byte ==> r
    ensures mode == Kanji ==> r == shiftJisConvertible
    ensures mode !in {Numeric, Alphanumeric, Byte, Kanji} ==> !r
  {
    match mode
    case Kanji => shiftJisConvertible
    case Numeric => AllDigits(text)
    case Alphanumeric => AllAlphanumeric(text)
    case Byte => true
    case _ => false
  }

  /** Numeric content is alphanumeric content, and both modes accept the
      empty string. */
  lemma NumericIsAlphanumeric(text: string, sj: bool)
    ensures SupportsContent(Numeric, text, sj) ==> SupportsContent(Alphanumeric, text, sj)
    ensures SupportsContent(Numeric, "", sj) && SupportsContent(Alphanumeric, "", sj)
  {
  }

  /** `lookup(for:)`: the mode whose raw value is `lookupBits`, if any. */
  function Lookup(lookupBits: int): (r: Option<Mode>)
    ensures r.Some? ==> Bits(r.value) == lookupBits
    ensures r.None? <==> lookupBits !in {0, 1, 2, 3, 4, 5, 7, 8, 9, 13}
  {
    match lookupBits
    case 0x00 => Some(Terminator)
    case 0x01 => Some(Numeric)
    case 0x02 => Some(Alphanumeric)
    case 0x04 => Some(Byte)
    case 0x07 => Some(ECI)
    case 0x03 => Some(StructuredAppend)
    case 0x08 => Some(Kanji)
    case 0x0D => Some(Hanzi)
    case 0x05 => Some(FNC1FirstPosition)
    case 0x09 => Some(FNC1SecondPosition)
    case _ => None
  }

  /** Looking up a mode's bits gives the mode back, so the indicators are
      distinct. */
  lemma LookupBits(mode: Mode)
    ensures Lookup(Bits(mode)) == Some(mode)
  {
  }
}
