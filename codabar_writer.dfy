/** ZXCodabarWriter.swift: Codabar contents to a row of modules (true is
    black). Each character becomes seven alternating bars and spaces, each
    one or two modules wide, and one white module separates two characters. */
module CodabarWriter {
  import opened Errors
  import opened CodabarReader
  import opened OneDimensionalWriter
  import BitMatrices

  /** `DefaultGuard`: the first start/stop character (A). */
  const DefaultGuard: char := if |GuardCharacters| > 0 then GuardCharacters[0] else 'A'

  /** n copies of v. */
  function Repeat(v: bool, n: nat): (r: seq<bool>)
    ensures |r| == n
  {
    if n == 0 then [] else Repeat(v, n - 1) + [v]
  }

  lemma {:induction false} RepeatAt(v: bool, n: nat, i: nat)
    requires i < n
    ensures Repeat(v, n)[i] == v
  {
    if i < n - 1 {
      RepeatAt(v, n - 1, i);
    }
  }

  // ---------------------------------------------------------------------
  // Guard characters

  /** What `verifyGuardCharacters` returns or throws: the alternate
      spellings replaced, then InvalidFormat when exactly one end is a
      start/stop character, "A" added at both ends when neither is, and the
      string unchanged when both are (or it is empty). */
  function GuardedSource(input: seq<char>): Result<seq<char>>
  {
    var source := Normalised(input);
    if source == [] then Ok(source)
    else
      var isValidStart := IsGuardCharacter(source[0]);
      var isValidEnd := IsGuardCharacter(source[|source| - 1]);
      if isValidStart != isValidEnd then Err(InvalidFormat)
      else if !isValidStart then Ok([DefaultGuard] + source + [DefaultGuard])
      else Ok(source)
  }

  /** The guard check fails exactly when one end, once normalised, is a
      start/stop character and the other is not. A string it accepts keeps
      its normalised characters, possibly between two added A's; it has no
      alternate spelling left, and, unless empty, a start/stop character at
      each end. */
  lemma GuardedSourceMeaning(input: seq<char>)
    ensures GuardedSource(input).Err? <==>
      input != [] && IsGuardCharacter(NormalisedGuard(input[0])) != IsGuardCharacter(NormalisedGuard(input[|input| - 1]))
    ensures GuardedSource(input).Err? ==> GuardedSource(input).error == InvalidFormat
    ensures GuardedSource(input).Ok? ==>
      var s := GuardedSource(input).value;
      (s == Normalised(input) || s == ['A'] + Normalised(input) + ['A']) &&
      (forall i :: 0 <= i < |s| ==> AlternateIndex(s[i]) == 4) &&
      (s != [] ==> IsGuardCharacter(s[0]) && IsGuardCharacter(s[|s| - 1])) &&
      (input != [] ==> s != [])
  {
    var n := Normalised(input);
    if n != [] && !IsGuardCharacter(n[0]) && !IsGuardCharacter(n[|n| - 1]) {
      WrappedNoAlternate(n);
    }
  }

  /** Adding the default guard at both ends of a string without alternate
      spellings leaves none. */
  lemma WrappedNoAlternate(n: seq<char>)
    requires forall i :: 0 <= i < |n| ==> AlternateIndex(n[i]) == 4
    ensures var s := [DefaultGuard] + n + [DefaultGuard];
      forall i :: 0 <= i < |s| ==> AlternateIndex(s[i]) == 4
  {
    var s := [DefaultGuard] + n + [DefaultGuard];
    forall i | 0 <= i < |s|
      ensures AlternateIndex(s[i]) == 4
    {
      if 0 < i < |s| - 1 {
        assert s[i] == n[i - 1];
      }
    }
  }

  /** `verifyGuardCharacters(_:)`. */
  method VerifyGuardCharacters(input: seq<char>) returns (r: Result<seq<char>>)
    ensures r == GuardedSource(input)
  {
    var source := TransformAlternateGuardCharacters(input);
    if |source| > 0 {
      var isValidStart := IsGuardCharacter(source[0]);
      var isValidEnd := IsGuardCharacter(source[|source| - 1]);
      if (isValidStart && !isValidEnd) || (!isValidStart && isValidEnd) {
        return Err(InvalidFormat);
      } else if !isValidStart && !isValidEnd {
        source := [DefaultGuard] + source + [DefaultGuard];
      }
    }
    return Ok(source);
  }

  // ---------------------------------------------------------------------
  // Encoded length

  /** The sum of the characters' lengths, or the error of the first
      character without one. */
  function LengthSum(s: seq<char>): Result<int>
  {
    if s == [] then Ok(0)
    else
      match LengthSum(s[..|s| - 1])
      case Err(e) => Err(e)
      case Ok(n) =>
        match EncodedCharacterLength(s[|s| - 1])
        case Err(e) => Err(e)
        case Ok(k) => Ok(n + k)
  }

  /** What `calculateEncodedLength` returns or throws: the characters'
      lengths plus one separating module between each two characters. */
  function EncodedLength(s: seq<char>): Result<int>
  {
    match LengthSum(s)
    case Err(e) => Err(e)
    case Ok(n) => Ok(n + |s| - 1)
  }

  /** The length is defined exactly when every character has one, the only
      error is InvalidFormat, and it lies between 10 and 11 modules per
      character, less one. */
  lemma {:induction false} LengthSumMeaning(s: seq<char>)
    ensures LengthSum(s).Ok? <==> forall i :: 0 <= i < |s| ==> EncodedCharacterLength(s[i]).Ok?
    ensures LengthSum(s).Err? ==> LengthSum(s).error == InvalidFormat
    ensures LengthSum(s).Ok? ==> 9 * |s| <= LengthSum(s).value <= 10 * |s|
  {
    if s != [] {
      var front := s[..|s| - 1];
      LengthSumMeaning(front);
      assert forall i :: 0 <= i < |front| ==> front[i] == s[i];
    }
  }

  lemma EncodedLengthMeaning(s: seq<char>)
    ensures EncodedLength(s).Ok? <==> forall i :: 0 <= i < |s| ==> EncodedCharacterLength(s[i]).Ok?
    ensures EncodedLength(s).Err? ==> EncodedLength(s).error == InvalidFormat
    ensures EncodedLength(s).Ok? ==> 10 * |s| - 1 <= EncodedLength(s).value <= 11 * |s| - 1
  {
    LengthSumMeaning(s);
  }

  /** A character without a length makes the whole sum fail. */
  lemma {:induction false} LengthSumFails(s: seq<char>, i: nat)
    requires i < |s| && EncodedCharacterLength(s[i]).Err?
    ensures LengthSum(s).Err?
  {
    if i < |s| - 1 {
      LengthSumFails(s[..|s| - 1], i);
    }
  }

  /** `calculateEncodedLength(_:)`: the `forEach` accumulating the lengths,
      stopping at the first character that throws. */
  method CalculateEncodedLength(input: seq<char>) returns (r: Result<int>)
    ensures r == EncodedLength(input)
  {
    var result := 0;
    for i := 0 to |input|
      invariant LengthSum(input[..i]) == Ok(result)
    {
      var length := EncodedCharacterLength(input[i]);
      if length.Err? {
        LengthSumFails(input, i);
        LengthSumMeaning(input);
        return Err(length.error);
      }
      assert input[..i + 1][..i] == input[..i];
      result := result + length.value;
    }
    assert input[..|input|] == input;
    result := result + |input| - 1;
    return Ok(result);
  }

  // ---------------------------------------------------------------------
  // Character codes

  /** What `getCodabarEncoding` returns: the code of every character of the
      table, in order, every other character dropped. */
  function Codes(s: seq<char>): (r: seq<nat>)
    ensures |r| <= |s|
  {
    if s == [] then []
    else
      match AlphabetCode(s[|s| - 1])
      case Some(code) => Codes(s[..|s| - 1]) + [code]
      case None => Codes(s[..|s| - 1])
  }

  /** Every code fits in seven bits; no character is dropped exactly when
      every character is in the table, and then the codes are the table's,
      position by position. */
  lemma {:induction false} CodesMeaning(s: seq<char>)
    ensures forall i :: 0 <= i < |Codes(s)| ==> Codes(s)[i] < 128
    ensures |Codes(s)| == |s| <==> forall i :: 0 <= i < |s| ==> AlphabetCode(s[i]).Some?
    ensures |Codes(s)| == |s| ==> forall i :: 0 <= i < |s| ==> Codes(s)[i] == AlphabetCode(s[i]).value
  {
    if s != [] {
      var front := s[..|s| - 1];
      CodesMeaning(front);
      assert forall i :: 0 <= i < |front| ==> front[i] == s[i];
      if AlphabetCode(s[|s| - 1]).Some? {
        EncodedLengthMatchesCode(s[|s| - 1]);
      }
    }
  }

  /** `getCodabarEncoding(_:)`. */
  method GetCodabarEncoding(input: seq<char>) returns (result: seq<nat>)
    ensures result == Codes(input)
  {
    result := [];
    for i := 0 to |input|
      invariant result == Codes(input[..i])
    {
      assert input[..i + 1][..i] == input[..i];
      var currEncoding := AlphabetCode(input[i]);
      if currEncoding.Some? {
        result := result + [currEncoding.value];
      }
    }
    assert input[..|input|] == input;
  }

  // ---------------------------------------------------------------------
  // Modules

  /** The modules of the first n of a character's seven elements: element
      e is black when e is even, and two modules wide when bit 6 - e of the
      code is set, one module otherwise. */
  function Runs(code: nat, n: nat): (r: seq<bool>)
    requires n <= 7
    ensures |r| == n + WideCount(code, n)
  {
    if n == 0 then [] else Runs(code, n - 1) + Repeat((n - 1) % 2 == 0, 1 + CodeBit(code, 7 - n))
  }

  /** The pattern of a character begins and ends with a bar. */
  lemma {:induction false} RunsStartBlack(code: nat, n: nat)
    requires 1 <= n <= 7
    ensures Runs(code, n)[0] == Black
  {
    if n > 1 {
      RunsStartBlack(code, n - 1);
    }
  }

  lemma PatternEndsBlack(code: nat)
    ensures Runs(code, 7)[0] == Black && Runs(code, 7)[|Runs(code, 7)| - 1] == Black
  {
    RunsStartBlack(code, 7);
  }

  lemma {:induction false} WideCountMonotone(code: nat, a: nat, b: nat)
    requires a <= b <= 7
    ensures WideCount(code, a) <= WideCount(code, b)
    decreases b - a
  {
    if a < b {
      WideCountMonotone(code, a, b - 1);
    }
  }

  /** The modules of a list of codes: every pattern, with one white module
      between two consecutive ones. */
  function Rendered(codes: seq<nat>): seq<bool>
  {
    if codes == [] then []
    else Rendered(codes[..|codes| - 1]) + (if |codes| > 1 then [White] else []) + Runs(codes[|codes| - 1], 7)
  }

  /** The modules of a string's codes, plus one module per code present
      and eleven per character dropped, add up to the string's lengths plus
      one per character: a dropped character (an alternate spelling, which
      has a length but no code) leaves its modules unwritten. */
  lemma {:induction false} RenderedFits(s: seq<char>)
    requires LengthSum(s).Ok?
    ensures |Rendered(Codes(s))| + (if Codes(s) == [] then 0 else 1) + 11 * (|s| - |Codes(s)|) == LengthSum(s).value + |s|
  {
    if s != [] {
      var front, c := s[..|s| - 1], s[|s| - 1];
      RenderedFits(front);
      LengthsAndKeys(c);
      var codes := Codes(front);
      match AlphabetCode(c)
      case Some(code) =>
        EncodedLengthMatchesCode(c);
        assert (codes + [code])[..|codes|] == codes;
      case None =>
    }
  }

  /** So the modules written fit the encoded length, exactly when no
      character is dropped. */
  lemma RenderedWithin(s: seq<char>)
    requires s != [] && EncodedLength(s).Ok?
    ensures |Rendered(Codes(s))| <= EncodedLength(s).value
    ensures |Rendered(Codes(s))| == EncodedLength(s).value <==> |Codes(s)| == |s|
  {
    RenderedFits(s);
    LengthSumMeaning(s);
  }

  // ---------------------------------------------------------------------
  // encode(contents:)

  /** The string `encode` works on: for contents shorter than two
      characters the uppercased contents between two A's, unchecked;
      otherwise the uppercased contents after the guard check. */
  function Source(contents: seq<char>, upper: seq<char>): Result<seq<char>>
  {
    if |contents| < 2 then Ok([DefaultGuard] + upper + [DefaultGuard]) else GuardedSource(upper)
  }

  lemma SourceNotEmpty(contents: seq<char>, upper: seq<char>)
    requires |contents| >= 2 ==> upper != []
    ensures Source(contents, upper).Ok? ==>
      Source(contents, upper).value != [] && IsGuardCharacter(Source(contents, upper).value[0])
  {
    if |contents| >= 2 {
      GuardedSourceMeaning(upper);
    }
  }

  /** A string whose first character is in the table has at least one code. */
  lemma {:induction false} CodesNotEmpty(s: seq<char>)
    requires s != [] && AlphabetCode(s[0]).Some?
    ensures Codes(s) != []
  {
    if |s| > 1 && AlphabetCode(s[|s| - 1]).None? {
      CodesNotEmpty(s[..|s| - 1]);
    }
  }

  /** What `encode(contents:)` returns or throws, given the contents and
      their uppercased form: the rendered codes, followed by white modules
      up to the encoded length. */
  function Encoding(contents: seq<char>, upper: seq<char>): Result<seq<bool>>
    requires |contents| >= 2 ==> upper != []
  {
    match Source(contents, upper)
    case Err(e) => Err(e)
    case Ok(source) =>
      match EncodedLength(source)
      case Err(e) => Err(e)
      case Ok(encodedLength) =>
        SourceNotEmpty(contents, upper);
        RenderedWithin(source);
        var bars := Rendered(Codes(source));
        Ok(bars + Repeat(White, encodedLength - |bars|))
  }

  /** The output has exactly the encoded length and starts with a bar. For
      contents of two or more characters every character is encoded and
      nothing is padded; shorter contents holding an alternate spelling end
      in unwritten white modules. The only error is InvalidFormat, thrown
      by the guard check or by a character without a length. */
  lemma EncodingMeaning(contents: seq<char>, upper: seq<char>)
    requires |contents| >= 2 ==> upper != []
    ensures Encoding(contents, upper).Err? <==>
      Source(contents, upper).Err? || EncodedLength(Source(contents, upper).value).Err?
    ensures Encoding(contents, upper).Err? ==> Encoding(contents, upper).error == InvalidFormat
    ensures Encoding(contents, upper).Ok? ==>
      var source := Source(contents, upper).value;
      var bars := Encoding(contents, upper).value;
      |bars| == EncodedLength(source).value && bars[0] == Black &&
      (|contents| >= 2 ==> bars == Rendered(Codes(source)) && |Codes(source)| == |source|)
  {
    SourceNotEmpty(contents, upper);
    GuardedSourceMeaning(upper);
    if Source(contents, upper).Ok? {
      var source := Source(contents, upper).value;
      EncodedLengthMeaning(source);
      if EncodedLength(source).Ok? {
        RenderedWithin(source);
        LengthsAndKeys(source[0]);
        CodesNotEmpty(source);
        RenderedStartsBlack(Codes(source));
        if |contents| >= 2 {
          CodesMeaning(source);
          forall i | 0 <= i < |source|
            ensures AlphabetCode(source[i]).Some?
          {
            LengthsAndKeys(source[i]);
          }
        }
      }
    }
  }

  lemma {:induction false} RenderedStartsBlack(codes: seq<nat>)
    requires codes != []
    ensures |Rendered(codes)| > 0 && Rendered(codes)[0] == Black
  {
    if |codes| > 1 {
      RenderedStartsBlack(codes[..|codes| - 1]);
    } else {
      RunsStartBlack(codes[0], 7);
    }
  }

  /** The modules written before character k: the first k patterns, each
      followed by a white module unless it is the last of all. */
  ghost function Written(codes: seq<nat>, k: nat): seq<bool>
    requires k <= |codes|
  {
    if k == 0 then []
    else Written(codes, k - 1) + Runs(codes[k - 1], 7) + (if k < |codes| then [White] else [])
  }

  /** Character k adds its pattern, and the separating module unless it is
      the last, to what is written, within the full rendering. */
  lemma WrittenStep(codes: seq<nat>, k: nat)
    requires k < |codes|
    ensures Written(codes, k + 1) == Written(codes, k) + Runs(codes[k], 7) + (if k + 1 < |codes| then [White] else [])
    ensures |Written(codes, k)| + |Runs(codes[k], 7)| + (if k + 1 < |codes| then 1 else 0) <= |Rendered(codes)|
  {
    WrittenPrefix(codes, k + 1);
  }

  /** After k characters the writes are the rendering of those k, plus the
      separating module when more follow. */
  lemma {:induction false} WrittenIsRendered(codes: seq<nat>, k: nat)
    requires 1 <= k <= |codes|
    ensures Written(codes, k) == Rendered(codes[..k]) + (if k < |codes| then [White] else [])
  {
    assert codes[..k][..k - 1] == codes[..k - 1];
    if k > 1 {
      WrittenIsRendered(codes, k - 1);
    }
  }

  /** What is written before character k is no longer than the full
      rendering, and once every character is written it is the full
      rendering. */
  lemma {:induction false} WrittenPrefix(codes: seq<nat>, k: nat)
    requires k <= |codes|
    ensures |Written(codes, k)| <= |Rendered(codes)|
    ensures k == |codes| ==> Written(codes, k) == Rendered(codes)
    decreases |codes| - k
  {
    if k < |codes| {
      WrittenPrefix(codes, k + 1);
    } else if k > 0 {
      WrittenIsRendered(codes, k);
      assert codes[..k] == codes;
    }
  }

  /** Writing v just past the written part of a sequence padded with white
      modules. */
  lemma WriteAtBoundary(a: seq<bool>, v: bool, m: nat)
    requires m >= 1
    ensures (a + Repeat(White, m))[|a| := v] == a + [v] + Repeat(White, m - 1)
  {
    var lhs, rhs := (a + Repeat(White, m))[|a| := v], a + [v] + Repeat(White, m - 1);
    assert |lhs| == |rhs|;
    forall i | 0 <= i < |lhs|
      ensures lhs[i] == rhs[i]
    {
      if i > |a| {
        RepeatAt(White, m, i - |a|);
        RepeatAt(White, m - 1, i - |a| - 1);
      }
    }
  }

  /** `encode(contents:)`: the contents and their uppercased form (the
      uppercasing is the caller's). */
  method Encode(contents: seq<char>, upper: seq<char>) returns (r: Result<seq<bool>>)
    requires |contents| >= 2 ==> upper != []
    ensures r == Encoding(contents, upper)
  {
    var source: seq<char>;
    if |contents| < 2 {
      source := [DefaultGuard] + upper + [DefaultGuard];
    } else {
      var verified := VerifyGuardCharacters(upper);
      if verified.Err? {
        return Err(verified.error);
      }
      source := verified.value;
    }
    var length := CalculateEncodedLength(source);
    if length.Err? {
      return Err(length.error);
    }
    var encodedLength := length.value;
    var codabarEncoding := GetCodabarEncoding(source);
    SourceNotEmpty(contents, upper);
    RenderedWithin(source);
    var result := RenderCodes(codabarEncoding, encodedLength);
    return Ok(result);
  }

  /** The `for (characterIndex, characterCode)` loop of `encode`: every
      code's pattern, a white module after each but the last, written over
      `encodedLength` white modules. */
  method RenderCodes(codabarEncoding: seq<nat>, encodedLength: nat) returns (result: seq<bool>)
    requires |Rendered(codabarEncoding)| <= encodedLength
    ensures result == Rendered(codabarEncoding) + Repeat(White, encodedLength - |Rendered(codabarEncoding)|)
  {
    result := Repeat(White, encodedLength);
    var globalPosition := 0;
    ghost var written: seq<bool> := [];
    for characterIndex := 0 to |codabarEncoding|
      invariant CharactersWritten(result, globalPosition, written, codabarEncoding, characterIndex, encodedLength)
    {
      result, globalPosition, written :=
        WriteCharacter(result, globalPosition, codabarEncoding, characterIndex, encodedLength, written);
    }
    WrittenPrefix(codabarEncoding, |codabarEncoding|);
  }

  /** The state of the `for (characterIndex, characterCode)` loop: the
      first `characterIndex` characters written, white modules after them. */
  ghost predicate CharactersWritten(result: seq<bool>, globalPosition: int, written: seq<bool>, codes: seq<nat>,
                                    characterIndex: int, encodedLength: int)
  {
    0 <= characterIndex <= |codes| && written == Written(codes, characterIndex) &&
    globalPosition == |written| <= encodedLength && result == written + Repeat(White, encodedLength - globalPosition)
  }

  /** One pass of the `for (characterIndex, characterCode)` loop: the
      character's pattern, then a white module unless it is the last. */
  method WriteCharacter(result: seq<bool>, globalPosition: nat, codabarEncoding: seq<nat>, characterIndex: nat,
                        encodedLength: nat, ghost written: seq<bool>)
    returns (result': seq<bool>, globalPosition': nat, ghost written': seq<bool>)
    requires CharactersWritten(result, globalPosition, written, codabarEncoding, characterIndex, encodedLength)
    requires characterIndex < |codabarEncoding| && |Rendered(codabarEncoding)| <= encodedLength
    ensures CharactersWritten(result', globalPosition', written', codabarEncoding, characterIndex + 1, encodedLength)
  {
    WrittenStep(codabarEncoding, characterIndex);
    ghost var free := encodedLength - globalPosition;
    ghost var pattern := Runs(codabarEncoding[characterIndex], 7);
    result', globalPosition' := EncodeCharacter(result, globalPosition, codabarEncoding[characterIndex], written, free);
    written' := written + pattern;
    if characterIndex < |codabarEncoding| - 1 {
      WriteAtBoundary(written', White, encodedLength - globalPosition');
      result' := result'[globalPosition' := White];
      globalPosition' := globalPosition' + 1;
      written' := written' + [White];
    }
  }

  /** The `while curr_bit < 7` loop of `encode`: the seven elements of one
      character, written from `globalPosition` on. */
  method EncodeCharacter(result: seq<bool>, globalPosition: nat, characterCode: nat, ghost written: seq<bool>,
                         ghost free: nat)
    returns (result': seq<bool>, globalPosition': nat)
    requires result == written + Repeat(White, free) && globalPosition == |written|
    requires |Runs(characterCode, 7)| <= free
    ensures globalPosition' == globalPosition + |Runs(characterCode, 7)|
    ensures result' == written + Runs(characterCode, 7) + Repeat(White, free - |Runs(characterCode, 7)|)
  {
    result', globalPosition' := result, globalPosition;
    var localPosition := 0;
    var currBit := 0;
    var color := Black;
    ghost var rest := free;
    while currBit < 7
      invariant LoopState(result', globalPosition', color, written, characterCode, currBit, localPosition, rest, free)
      decreases 2 * (7 - currBit) - localPosition
    {
      ElementStep(result', globalPosition', color, written, characterCode, currBit, localPosition, rest, free);
      result' := result'[globalPosition' := color];
      globalPosition' := globalPosition' + 1;
      if CodeBit(characterCode, 6 - currBit) == 0 || localPosition == 1 {
        color := !color;
        currBit := currBit + 1;
        localPosition := 0;
      } else {
        localPosition := localPosition + 1;
      }
      rest := rest - 1;
    }
    assert Repeat(color, 0) == [];
  }

  /** `ModulesWritten` with the colour of element `currBit` and the
      accounting of the white modules the character started with. */
  ghost predicate LoopState(result: seq<bool>, position: int, color: bool, written: seq<bool>, code: nat,
                            currBit: int, localPosition: int, rest: int, free: int)
  {
    ModulesWritten(result, position, written, code, currBit, localPosition, rest) &&
    color == (currBit % 2 == 0) && |Runs(code, currBit)| + localPosition + rest == free
  }

  /** The state of the `while curr_bit < 7` loop: the elements before
      `currBit` written in full, `localPosition` modules of element
      `currBit` written, and `rest` white modules after them, enough for
      the rest of the pattern. */
  ghost predicate ModulesWritten(result: seq<bool>, position: int, written: seq<bool>, code: nat, currBit: int,
                                 localPosition: int, rest: int)
  {
    0 <= currBit <= 7 && 0 <= localPosition <= 1 && 0 <= rest &&
    (localPosition == 1 ==> currBit < 7 && CodeBit(code, 6 - currBit) == 1) &&
    |Runs(code, 7)| <= |Runs(code, currBit)| + localPosition + rest &&
    position == |written| + |Runs(code, currBit)| + localPosition &&
    result == written + Runs(code, currBit) + Repeat(currBit % 2 == 0, localPosition) + Repeat(White, rest)
  }

  /** The next module lies inside the output. */
  lemma ModuleInRange(result: seq<bool>, position: int, written: seq<bool>, code: nat, currBit: int,
                      localPosition: int, rest: int)
    requires ModulesWritten(result, position, written, code, currBit, localPosition, rest) && currBit < 7
    ensures 0 <= position < |result| && rest >= 1
  {
    WideCountMonotone(code, currBit + 1, 7);
  }

  /** One pass of the `while curr_bit < 7` loop keeps its state: the
      module at `position` is painted `color`, then either the element is
      complete (the colour flips and `currBit` moves on) or the first module
      of a wide element has been written. */
  lemma ElementStep(result: seq<bool>, position: int, color: bool, written: seq<bool>, code: nat, currBit: int,
                   localPosition: int, rest: int, free: int)
    requires LoopState(result, position, color, written, code, currBit, localPosition, rest, free) && currBit < 7
    ensures 0 <= position < |result| && 0 <= 6 - currBit
    ensures CodeBit(code, 6 - currBit) == 0 || localPosition == 1 ==>
      LoopState(result[position := color], position + 1, !color, written, code, currBit + 1, 0, rest - 1, free)
    ensures !(CodeBit(code, 6 - currBit) == 0 || localPosition == 1) ==>
      LoopState(result[position := color], position + 1, color, written, code, currBit, localPosition + 1, rest - 1,
                free)
  {
    if CodeBit(code, 6 - currBit) == 0 || localPosition == 1 {
      ElementCompleted(result, position, color, written, code, currBit, localPosition, rest, free);
    } else {
      WideElementStarted(result, position, color, written, code, currBit, rest, free);
    }
  }

  /** Writing the last module of an element moves on to the next
      element. */
  lemma ElementCompleted(result: seq<bool>, position: int, color: bool, written: seq<bool>, code: nat, currBit: int,
                         localPosition: int, rest: int, free: int)
    requires LoopState(result, position, color, written, code, currBit, localPosition, rest, free) && currBit < 7
    requires CodeBit(code, 6 - currBit) == 0 || localPosition == 1
    ensures 0 <= position < |result|
    ensures LoopState(result[position := color], position + 1, !color, written, code, currBit + 1, 0, rest - 1, free)
  {
    var done := written + Runs(code, currBit) + Repeat(color, localPosition);
    ModuleInRange(result, position, written, code, currBit, localPosition, rest);
    assert result == done + Repeat(White, rest) && position == |done|;
    WriteAtBoundary(done, color, rest);
    ElementRun(code, currBit, localPosition, color);
    assert done + [color] == written + Runs(code, currBit + 1) + Repeat((currBit + 1) % 2 == 0, 0);
    assert result[position := color] == written + Runs(code, currBit + 1) + Repeat((currBit + 1) % 2 == 0, 0)
                                        + Repeat(White, rest - 1);
  }

  /** The modules of element `currBit` written so far, plus the one being
      written, complete that element's run. */
  lemma ElementRun(code: nat, currBit: nat, localPosition: nat, color: bool)
    requires currBit < 7 && localPosition <= 1 && color == (currBit % 2 == 0)
    requires localPosition == 1 ==> CodeBit(code, 6 - currBit) == 1
    requires CodeBit(code, 6 - currBit) == 0 || localPosition == 1
    ensures Runs(code, currBit) + Repeat(color, localPosition) + [color] == Runs(code, currBit + 1)
  {
    assert Repeat(color, localPosition) + [color] == Repeat(color, 1 + CodeBit(code, 6 - currBit));
  }

  /** Writing the first module of a wide element stays on that element. */
  lemma WideElementStarted(result: seq<bool>, position: int, color: bool, written: seq<bool>, code: nat, currBit: int,
                           rest: int, free: int)
    requires LoopState(result, position, color, written, code, currBit, 0, rest, free) && currBit < 7
    requires CodeBit(code, 6 - currBit) == 1
    ensures 0 <= position < |result|
    ensures LoopState(result[position := color], position + 1, color, written, code, currBit, 1, rest - 1, free)
  {
    var done := written + Runs(code, currBit);
    ModuleInRange(result, position, written, code, currBit, 0, rest);
    assert written + Runs(code, currBit) + Repeat(color, 0) == done;
    WriteAtBoundary(done, color, rest);
    assert done + [color] == written + Runs(code, currBit) + Repeat(color, 1);
  }

  /** The inherited `encode(contents:format:width:height:options:)` on a
      Codabar writer: the argument checks, then the Codabar bars rendered
      with the default margin. */
  method EncodeMatrix(contents: seq<char>, upper: seq<char>, width: int, height: int)
    returns (r: Result<BitMatrices.BitMatrix>)
    requires |contents| >= 2 ==> upper != []
    ensures r.Err? <==> CheckedBarcode(contents, width, height, Encoding(contents, upper)).Err?
    ensures r.Err? ==> r.error == CheckedBarcode(contents, width, height, Encoding(contents, upper)).error
    ensures r.Ok? ==>
      Encoding(contents, upper).Ok? && fresh(r.value) &&
      Rendering(r.value, Encoding(contents, upper).value, width, height, DefaultMargin)
  {
    var raw := Encode(contents, upper);
    r := OneDimensionalWriter.Encode(contents, width, height, raw);
  }
}
