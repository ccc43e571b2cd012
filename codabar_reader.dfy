/** ZXCodabarReader.swift: the Codabar character tables the writer uses,
    the substitution of the alternate start/stop characters, and the number
    of modules each character takes. */
module CodabarReader {
  import opened Errors
  import opened Bits

  /** `AlphabetEncodingMap`: the seven-element wide/narrow pattern of each
      character, most significant of the seven bits first, 1 for wide. */
  function AlphabetCode(c: char): Option<nat>
  {
    match c
      case '0' => Some(0x003)
      case '1' => Some(0x006)
      case '2' => Some(0x009)
      case '3' => Some(0x060)
      case '4' => Some(0x012)
      case '5' => Some(0x042)
      case '6' => Some(0x021)
      case '7' => Some(0x024)
      case '8' => Some(0x030)
      case '9' => Some(0x048)
      case '-' => Some(0x00C)
      case '$' => Some(0x018)
      case ':' => Some(0x045)
      case '/' => Some(0x051)
      case '.' => Some(0x054)
      case '+' => Some(0x015)
      case 'A' => Some(0x01A)
      case 'B' => Some(0x029)
      case 'C' => Some(0x00B)
      case 'D' => Some(0x00E)
      case _ => None
  }

  /** `GuardCharacters`: the start/stop characters. */
  const GuardCharacters: seq<char> := "ABCD"

  /** Membership in `GuardCharacters` (and in `GuardCharacterSet`). */
  predicate IsGuardCharacter(c: char)
  {
    'A' <= c <= 'D'
  }

  lemma GuardCharactersListed(c: char)
    ensures IsGuardCharacter(c) <==> c in GuardCharacters
  {
    if IsGuardCharacter(c) {
      assert c == GuardCharacters[c as int - 'A' as int];
    }
  }

  /** `AlternateGuardCharacters`: the alternate spellings T, N, * and E of
      the start/stop characters A, B, C and D. */
  const AlternateGuardCharacters: seq<(char, char)> := [('T', 'A'), ('N', 'B'), ('*', 'C'), ('E', 'D')]

  /** The position of c among the alternate spellings, 4 if it is none. */
  function AlternateIndex(c: char): (i: nat)
    ensures i <= 4
    ensures i < 4 ==> AlternateGuardCharacters[i].0 == c
    ensures i == 4 ==> forall k :: 0 <= k < 4 ==> AlternateGuardCharacters[k].0 != c
  {
    if c == 'T' then 0 else if c == 'N' then 1 else if c == '*' then 2 else if c == 'E' then 3 else 4
  }

  /** c with its alternate spelling, if it has one, replaced by the
      start/stop character it stands for. */
  function NormalisedGuard(c: char): (r: char)
    ensures AlternateIndex(r) == 4
    ensures AlternateIndex(c) < 4 ==> IsGuardCharacter(r) && r == AlternateGuardCharacters[AlternateIndex(c)].1
    ensures AlternateIndex(c) == 4 ==> r == c
  {
    var i := AlternateIndex(c);
    if i < 4 then AlternateGuardCharacters[i].1 else c
  }

  /** The string with every alternate spelling replaced by the start/stop
      character it stands for. */
  function Normalised(s: seq<char>): (r: seq<char>)
    ensures |r| == |s|
    ensures forall i :: 0 <= i < |s| ==> r[i] == NormalisedGuard(s[i])
  {
    if s == [] then [] else Normalised(s[..|s| - 1]) + [NormalisedGuard(s[|s| - 1])]
  }

  /** `replacingOccurrences(of:with:)` for one-character strings: every
      occurrence of `source` becomes `target`. */
  function ReplacingOccurrences(s: seq<char>, source: char, target: char): (r: seq<char>)
    ensures |r| == |s|
    ensures forall i :: 0 <= i < |s| ==> r[i] == if s[i] == source then target else s[i]
  {
    if s == [] then []
    else ReplacingOccurrences(s[..|s| - 1], source, target) + [if s[|s| - 1] == source then target else s[|s| - 1]]
  }

  /** The characters of s after the first k replacements of
      `transformAlternateGuardCharacters`. */
  ghost predicate ReplacedUpTo(input: seq<char>, result: seq<char>, k: int)
  {
    |result| == |input| &&
    forall i :: 0 <= i < |input| ==>
      result[i] == if AlternateIndex(input[i]) < k then NormalisedGuard(input[i]) else input[i]
  }

  /** `transformAlternateGuardCharacters(_:)`: one `replacingOccurrences`
      per alternate spelling. The result has the length of the input, every
      alternate spelling replaced by its start/stop character, every other
      character kept, and no alternate spelling left. */
  method TransformAlternateGuardCharacters(input: seq<char>) returns (result: seq<char>)
    ensures |result| == |input|
    ensures forall i :: 0 <= i < |input| ==> result[i] == NormalisedGuard(input[i])
    ensures forall i :: 0 <= i < |result| ==> AlternateIndex(result[i]) == 4
    ensures result == Normalised(input)
  {
    result := input;
    for k := 0 to |AlternateGuardCharacters|
      invariant ReplacedUpTo(input, result, k)
    {
      var (source, target) := AlternateGuardCharacters[k];
      ghost var before := result;
      result := ReplacingOccurrences(result, source, target);
      forall i | 0 <= i < |input|
        ensures result[i] == if AlternateIndex(input[i]) < k + 1 then NormalisedGuard(input[i]) else input[i]
      {
        if AlternateIndex(input[i]) < k {
          assert IsGuardCharacter(before[i]);
        }
      }
    }
  }

  /** `encodedCharacterLength(_:)`: 9 modules for the digits, '-' and '$'
      (two wide elements), 10 for '/', ':', '+', '.', the start/stop
      characters and their alternate spellings (three wide elements);
      InvalidFormat for every other character. */
  function EncodedCharacterLength(c: char): (r: Result<int>)
    ensures r.Ok? ==> r.value == 9 || r.value == 10
  {
    if '0' <= c <= '9' then Ok(9)
    else if c == '-' || c == '$' then Ok(9)
    else if c == '/' || c == ':' || c == '+' || c == '.' then Ok(10)
    else if IsGuardCharacter(c) then Ok(10)
    else if AlternateIndex(c) < 4 then Ok(10)
    else Err(InvalidFormat)
  }

  /** Bit i of a code: `(code >> i) & 1`, the shift taken one halving at a
      time. */
  function CodeBit(code: nat, i: nat): (b: nat)
    ensures b <= 1
  {
    if i == 0 then code % 2 else CodeBit(code / 2, i - 1)
  }

  /** The number of wide elements among the first n of a code's seven,
      element e being bit 6 - e. */
  function WideCount(code: nat, n: nat): (w: nat)
    requires n <= 7
    ensures w <= n
  {
    if n == 0 then 0 else WideCount(code, n - 1) + CodeBit(code, 7 - n)
  }

  /** Every code of the table fits in seven bits, and the length the writer
      reserves for a character of the table is its seven elements plus one
      extra module per wide element. */
  lemma EncodedLengthMatchesCode(c: char)
    requires AlphabetCode(c).Some?
    ensures 0 <= AlphabetCode(c).value < 128
    ensures EncodedCharacterLength(c) == Ok(7 + WideCount(AlphabetCode(c).value, 7))
  {
    match c
      case '0' => WideCountOf003();
      case '1' => WideCountOf006();
      case '2' => WideCountOf009();
      case '3' => WideCountOf060();
      case '4' => WideCountOf012();
      case '5' => WideCountOf042();
      case '6' => WideCountOf021();
      case '7' => WideCountOf024();
      case '8' => WideCountOf030();
      case '9' => WideCountOf048();
      case '-' => WideCountOf00C();
      case '$' => WideCountOf018();
      case ':' => WideCountOf045();
      case '/' => WideCountOf051();
      case '.' => WideCountOf054();
      case '+' => WideCountOf015();
      case 'A' => WideCountOf01A();
      case 'B' => WideCountOf029();
      case 'C' => WideCountOf00B();
      case 'D' => WideCountOf00E();
  }

  // The wide-element count of each code of the table, one code per lemma
  // (evaluating several counts in one proof is far slower than one).
  lemma WideCountOf003() ensures WideCount(0x003, 7) == 2 {}
  lemma WideCountOf006() ensures WideCount(0x006, 7) == 2 {}
  lemma WideCountOf009() ensures WideCount(0x009, 7) == 2 {}
  lemma WideCountOf060() ensures WideCount(0x060, 7) == 2 {}
  lemma WideCountOf012() ensures WideCount(0x012, 7) == 2 {}
  lemma WideCountOf042() ensures WideCount(0x042, 7) == 2 {}
  lemma WideCountOf021() ensures WideCount(0x021, 7) == 2 {}
  lemma WideCountOf024() ensures WideCount(0x024, 7) == 2 {}
  lemma WideCountOf030() ensures WideCount(0x030, 7) == 2 {}
  lemma WideCountOf048() ensures WideCount(0x048, 7) == 2 {}
  lemma WideCountOf00C() ensures WideCount(0x00C, 7) == 2 {}
  lemma WideCountOf018() ensures WideCount(0x018, 7) == 2 {}
  lemma WideCountOf045() ensures WideCount(0x045, 7) == 3 {}
  lemma WideCountOf051() ensures WideCount(0x051, 7) == 3 {}
  lemma WideCountOf054() ensures WideCount(0x054, 7) == 3 {}
  lemma WideCountOf015() ensures WideCount(0x015, 7) == 3 {}
  lemma WideCountOf01A() ensures WideCount(0x01A, 7) == 3 {}
  lemma WideCountOf029() ensures WideCount(0x029, 7) == 3 {}
  lemma WideCountOf00B() ensures WideCount(0x00B, 7) == 3 {}
  lemma WideCountOf00E() ensures WideCount(0x00E, 7) == 3 {}

  /** The characters with a length are exactly the keys of the table and the
      alternate spellings, and the start/stop characters are keys. */
  lemma LengthsAndKeys(c: char)
    ensures EncodedCharacterLength(c).Ok? <==> AlphabetCode(c).Some? || AlternateIndex(c) < 4
    ensures IsGuardCharacter(c) ==> AlphabetCode(c).Some?
    ensures AlternateIndex(c) < 4 ==> AlphabetCode(c).None? && AlphabetCode(NormalisedGuard(c)).Some?
    ensures AlphabetCode(c).None? && EncodedCharacterLength(c).Ok? ==> EncodedCharacterLength(c) == Ok(10)
  {
  }
}
